/** The in-band headers: how raw memory words represent a list of heap blocks, and how
    the pointer writes of `malloc` and `free` change what the words represent. */
module HeapImage {
  import opened Words
  import opened BlockList

  const MAGIC: Word := 1234567890

  // Word offsets of the header fields.
  const F_MAGIC := 0
  const F_NEXT := 1
  const F_PREV := 2
  const F_ALLOCATED := 3
  const F_SIZE := 4
  const HEADER_WORDS := 5

  /** The contents of a header. */
  datatype Fields = Fields(magic: int, next: int, prev: int, mark: int, size: int)

  predicate InRange(w: seq<Word>, k: int)
  {
    0 <= k <= |w| - HEADER_WORDS
  }

  /** The header at word `k`. */
  function Read(w: seq<Word>, k: int): Fields
    requires InRange(w, k)
  {
    Fields(w[k + F_MAGIC], w[k + F_NEXT], w[k + F_PREV], w[k + F_ALLOCATED], w[k + F_SIZE])
  }

  /** Index of the word at byte address `addr` of a heap that starts at `lo`. */
  function Slot(lo: int, addr: int): int
  {
    (addr - lo) / 4
  }

  function NextOf(bs: seq<Block>, i: nat): int
    requires i < |bs|
  {
    if i + 1 < |bs| then bs[i + 1].addr else 0
  }

  function PrevOf(bs: seq<Block>, i: nat): int
    requires i < |bs|
  {
    if i > 0 then bs[i - 1].addr else 0
  }

  /** What the header of block `i` must hold. */
  function Expected(bs: seq<Block>, i: nat): Fields
    requires i < |bs|
  {
    Fields(MAGIC, NextOf(bs, i), PrevOf(bs, i), if bs[i].used then 1 else 0, bs[i].size)
  }

  ghost predicate HeaderAt(w: seq<Word>, lo: int, bs: seq<Block>, i: nat)
    requires i < |bs|
  {
    var k := Slot(lo, bs[i].addr);
    InRange(w, k) && Read(w, k) == Expected(bs, i)
  }

  /** The words hold the header of every block of the list. */
  ghost predicate Decodes(w: seq<Word>, lo: int, bs: seq<Block>)
  {
    forall i :: 0 <= i < |bs| ==> HeaderAt(w, lo, bs, i)
  }

  predicate Covers(lo: int, b: Block, k: int)
  {
    Slot(lo, b.addr) <= k < Slot(lo, b.addr) + HEADER_WORDS
  }

  /** Word `k` belongs to no header of the list. */
  ghost predicate Outside(lo: int, bs: seq<Block>, k: int)
  {
    forall i :: 0 <= i < |bs| ==> !Covers(lo, bs[i], k)
  }

  predicate Bounded(lo: int, hi: int, w: seq<Word>)
  {
    0 < lo && lo % 4 == 0 && hi == lo + 4 * |w| && hi < TWO32
  }

  // ---------- geometry ----------

  lemma SlotsApart(lo: int, a: Block, b: Block)
    requires lo % 4 == 0 && Sound(a) && Sound(b) && a.End() <= b.addr
    ensures Slot(lo, a.addr) + HEADER_WORDS + a.size / 4 <= Slot(lo, b.addr)
  {
  }

  /** Two headers at these words are the same or do not overlap. */
  predicate Clear(k: int, m: int)
  {
    k == m || k + HEADER_WORDS <= m || m + HEADER_WORDS <= k
  }

  lemma HeadersApart(bs: seq<Block>, lo: int, hi: int, i: nat, j: nat)
    requires Ordered(bs, lo, hi) && lo % 4 == 0 && i < |bs| && j < |bs|
    ensures i < j ==> Slot(lo, bs[i].addr) + HEADER_WORDS <= Slot(lo, bs[j].addr)
    ensures j < i ==> Slot(lo, bs[j].addr) + HEADER_WORDS <= Slot(lo, bs[i].addr)
  {
    assert Sound(bs[i]) && Sound(bs[j]);
    if i < j { OrderedFar(bs, lo, hi, i, j); SlotsApart(lo, bs[i], bs[j]); }
    if j < i { OrderedFar(bs, lo, hi, j, i); SlotsApart(lo, bs[j], bs[i]); }
  }

  /** A word of a block's payload is a word of no header. */
  lemma PayloadOutside(bs: seq<Block>, lo: int, hi: int, i: nat, k: int)
    requires Ordered(bs, lo, hi) && lo % 4 == 0 && i < |bs|
    requires Slot(lo, bs[i].addr) + HEADER_WORDS <= k < Slot(lo, bs[i].End())
    ensures Outside(lo, bs, k)
  {
    forall j | 0 <= j < |bs| ensures !Covers(lo, bs[j], k) {
      assert Sound(bs[i]) && Sound(bs[j]);
      if i < j { OrderedFar(bs, lo, hi, i, j); SlotsApart(lo, bs[i], bs[j]); }
      if j < i { OrderedFar(bs, lo, hi, j, i); SlotsApart(lo, bs[j], bs[i]); }
    }
  }

  lemma BlockInside(bs: seq<Block>, lo: int, hi: int, w: seq<Word>, i: nat)
    requires Ordered(bs, lo, hi) && Bounded(lo, hi, w) && i < |bs|
    ensures lo <= bs[i].addr && bs[i].End() <= hi
    ensures 0 <= Slot(lo, bs[i].addr) && Slot(lo, bs[i].addr) + HEADER_WORDS + bs[i].size / 4 <= |w|
  {
    var z := |bs| - 1;
    assert Sound(bs[0]) && Sound(bs[i]) && Sound(bs[z]);
    if 0 < i { OrderedFar(bs, lo, hi, 0, i); }
    if i < z { OrderedFar(bs, lo, hi, i, z); }
  }

  // ---------- clearing the mark ----------

  /** `v` is `w` with the header at word `k` marked free. */
  predicate ClearWrites(w: seq<Word>, v: seq<Word>, k: int)
  {
    InRange(w, k) && v == w[k + F_ALLOCATED := 0]
  }

  lemma ClearDecodes(w: seq<Word>, v: seq<Word>, lo: int, hi: int, bs: seq<Block>, i: nat)
    requires Ordered(bs, lo, hi) && Bounded(lo, hi, w) && Decodes(w, lo, bs) && i < |bs|
    requires ClearWrites(w, v, Slot(lo, bs[i].addr))
    ensures Decodes(v, lo, bs[i := bs[i].(used := false)])
  {
    var c := bs[i := bs[i].(used := false)];
    forall m | 0 <= m < |c| ensures HeaderAt(v, lo, c, m) {
      assert HeaderAt(w, lo, bs, m);
      HeadersApart(bs, lo, hi, m, i);
    }
  }

  // ---------- merging ----------

  /** `v` is `w` after the header at `k` took over the room of the next header, whose
      fields were `next`; `x` is the header after that, or -1. */
  predicate JoinWrites(w: seq<Word>, v: seq<Word>, k: int, next: Fields, x: int, addr: int)
  {
    && |v| == |w| && InRange(w, k) && x <= |w| - HEADER_WORDS
    && v[k + F_NEXT] == next.next
    && v[k + F_SIZE] == w[k + F_SIZE] + next.size + HEADER
    && (0 <= x ==> v[x + F_PREV] == addr)
    && (forall m | 0 <= m < |w| && m != k + F_NEXT && m != k + F_SIZE ::
          (0 <= x && m == x + F_PREV) || v[m] == w[m])
  }

  lemma JoinReads(w: seq<Word>, v: seq<Word>, k: int, next: Fields, x: int, addr: int, o: int)
    requires JoinWrites(w, v, k, next, x, addr) && InRange(w, o) && Clear(o, k)
    requires 0 <= x ==> Clear(o, x) && x != k
    ensures Read(v, o)
         == if o == k then Read(w, o).(next := next.next, size := w[k + F_SIZE] + next.size + HEADER)
            else if o == x then Read(w, o).(prev := addr)
            else Read(w, o)
  {
  }

  /** Word positions the merge of block `i` with its successor touches. */
  function After(lo: int, bs: seq<Block>, i: nat): int
  {
    if i < |bs| then Slot(lo, bs[i].addr) else -1
  }

  ghost predicate JoinsBlocks(w: seq<Word>, v: seq<Word>, lo: int, bs: seq<Block>, i: nat)
    requires i + 1 < |bs|
  {
    JoinWrites(w, v, Slot(lo, bs[i].addr), Expected(bs, i + 1), After(lo, bs, i + 2), bs[i].addr)
  }

  lemma JoinExpected(bs: seq<Block>, i: nat, m: nat)
    requires i + 1 < |bs| && m < |bs| - 1
    ensures var r := Join(bs, i);
      var o := if m <= i then m else m + 1;
      && |r| == |bs| - 1 && r[m].addr == bs[o].addr
      && Expected(r, m)
         == if m == i then Expected(bs, o).(next := NextOf(bs, i + 1), size := bs[i].size + bs[i + 1].size + HEADER)
            else if m == i + 1 then Expected(bs, o).(prev := bs[i].addr)
            else Expected(bs, o)
  {
  }

  lemma JoinHeader(w: seq<Word>, v: seq<Word>, lo: int, hi: int, bs: seq<Block>, i: nat, m: nat)
    requires Ordered(bs, lo, hi) && lo % 4 == 0 && Decodes(w, lo, bs) && i + 1 < |bs| && m < |bs| - 1
    requires JoinsBlocks(w, v, lo, bs, i)
    ensures |Join(bs, i)| == |bs| - 1 && HeaderAt(v, lo, Join(bs, i), m)
  {
    var o := if m <= i then m else m + 1;
    var k, x := Slot(lo, bs[i].addr), After(lo, bs, i + 2);
    assert HeaderAt(w, lo, bs, o) && HeaderAt(w, lo, bs, i);
    HeadersApart(bs, lo, hi, o, i);
    if i + 2 < |bs| {
      HeadersApart(bs, lo, hi, o, i + 2);
      HeadersApart(bs, lo, hi, i, i + 2);
    }
    JoinReads(w, v, k, Expected(bs, i + 1), x, bs[i].addr, Slot(lo, bs[o].addr));
    JoinExpected(bs, i, m);
  }

  lemma JoinDecodes(w: seq<Word>, v: seq<Word>, lo: int, hi: int, bs: seq<Block>, i: nat)
    requires Ordered(bs, lo, hi) && Bounded(lo, hi, w) && Decodes(w, lo, bs) && i + 1 < |bs|
    requires JoinsBlocks(w, v, lo, bs, i)
    ensures Decodes(v, lo, Join(bs, i))
  {
    forall m | 0 <= m < |Join(bs, i)| ensures HeaderAt(v, lo, Join(bs, i), m) {
      JoinHeader(w, v, lo, hi, bs, i, m);
    }
  }

  // ---------- splitting ----------

  /** `v` is `w` after a free header was written at word `n` (address `at`) for what
      `size` bytes leave of the block whose header is at `k` (address `addr`), and linked
      between it and the header at `x` (-1 if there is none). */
  predicate LinkWrites(w: seq<Word>, v: seq<Word>, k: int, addr: int, n: int, at: int, x: int, size: int)
  {
    && |v| == |w| && InRange(w, k) && InRange(w, n) && x <= |w| - HEADER_WORDS
    && Read(v, n) == Fields(MAGIC, w[k + F_NEXT], addr, 0, w[k + F_SIZE] - size - HEADER)
    && v[k + F_NEXT] == at
    && (0 <= x ==> v[x + F_PREV] == at)
    && (forall m | 0 <= m < |w| && m != k + F_NEXT ::
          n <= m < n + HEADER_WORDS || (0 <= x && m == x + F_PREV) || v[m] == w[m])
  }

  /** The writes of the splitting branch, in the order the code makes them. */
  function Linked(w: seq<Word>, k: int, addr: Word, n: int, at: Word, x: int, size: Word): seq<Word>
    requires InRange(w, k) && InRange(w, n) && (0 <= x ==> InRange(w, x))
    requires 0 <= w[k + F_SIZE] - size - HEADER
  {
    var v := w[n + F_ALLOCATED := 0][n + F_SIZE := w[k + F_SIZE] - size - HEADER];
    var u := v[n + F_PREV := addr][n + F_NEXT := w[k + F_NEXT]];
    var t := if 0 <= x then u[x + F_PREV := at] else u;
    t[n + F_MAGIC := MAGIC][k + F_NEXT := at]
  }

  lemma LinkedWrites(w: seq<Word>, k: int, addr: Word, n: int, at: Word, x: int, size: Word)
    requires InRange(w, k) && InRange(w, n) && k + HEADER_WORDS <= n
    requires 0 <= x ==> InRange(w, x) && n + HEADER_WORDS <= x
    requires 0 <= w[k + F_SIZE] - size - HEADER
    ensures LinkWrites(w, Linked(w, k, addr, n, at, x, size), k, addr, n, at, x, size)
  {
  }

  /** The header at word `k` marked in use, and its size set. */
  function Marked(w: seq<Word>, k: int, size: Word): seq<Word>
    requires InRange(w, k)
  {
    w[k + F_ALLOCATED := 1][k + F_SIZE := size]
  }

  lemma SplitReads(w: seq<Word>, mid: seq<Word>, v: seq<Word>, k: int, addr: int, n: int, at: int, x: int,
                   size: Word, o: int)
    requires LinkWrites(w, mid, k, addr, n, at, x, size) && v == Marked(mid, k, size)
    requires InRange(w, o) && Clear(o, n) && Clear(o, k) && Clear(k, n) && k != n
    requires 0 <= x ==> Clear(o, x) && x != k && x != n
    ensures InRange(v, o) && Read(v, o)
         == if o == n then Fields(MAGIC, w[k + F_NEXT], addr, 0, w[k + F_SIZE] - size - HEADER)
            else if o == k then Read(w, o).(next := at, mark := 1, size := size)
            else if o == x then Read(w, o).(prev := at)
            else Read(w, o)
  {
  }

  lemma SplitPositions(lo: int, hi: int, bs: seq<Block>, i: nat, size: int, o: nat)
    requires Ordered(bs, lo, hi) && lo % 4 == 0 && i < |bs| && o < |bs|
    requires Splits(bs[i], size) && size >= 0 && size % 4 == 0
    ensures var n := Slot(lo, bs[i].addr + HEADER + size);
      var ko := Slot(lo, bs[o].addr);
      && (o <= i ==> ko + HEADER_WORDS <= n)
      && (i < o ==> n + HEADER_WORDS <= ko)
  {
    assert Sound(bs[o]) && Sound(bs[i]);
    var at := Block(bs[i].addr + HEADER + size, bs[i].size - size - HEADER, false);
    if i < o { OrderedFar(bs, lo, hi, i, o); SlotsApart(lo, at, bs[o]); }
    if o < i { OrderedFar(bs, lo, hi, o, i); }
  }

  lemma SplitExpected(bs: seq<Block>, i: nat, size: int, o: nat)
    requires i < |bs| && Splits(bs[i], size) && o < |bs|
    ensures var r := Take(bs, i, size);
      var m := if o <= i then o else o + 1;
      var at := bs[i].addr + HEADER + size;
      && |r| == |bs| + 1 && r[m].addr == bs[o].addr
      && Expected(r, m)
         == if o == i then Expected(bs, o).(next := at, mark := 1, size := size)
            else if o == i + 1 then Expected(bs, o).(prev := at)
            else Expected(bs, o)
  {
  }

  ghost predicate SplitsBlock(w: seq<Word>, mid: seq<Word>, v: seq<Word>, lo: int, bs: seq<Block>, i: nat, size: Word)
    requires i < |bs|
  {
    var at := bs[i].addr + HEADER + size;
    && LinkWrites(w, mid, Slot(lo, bs[i].addr), bs[i].addr, Slot(lo, at), at, After(lo, bs, i + 1), size)
    && v == Marked(mid, Slot(lo, bs[i].addr), size)
  }

  lemma SplitOldHeader(w: seq<Word>, mid: seq<Word>, v: seq<Word>, lo: int, hi: int, bs: seq<Block>, i: nat,
                       size: Word, o: nat)
    requires Ordered(bs, lo, hi) && lo % 4 == 0 && i < |bs| && o < |bs| && Decodes(w, lo, bs)
    requires Splits(bs[i], size) && size % 4 == 0
    requires SplitsBlock(w, mid, v, lo, bs, i, size)
    ensures |Take(bs, i, size)| == |bs| + 1
    ensures HeaderAt(v, lo, Take(bs, i, size), if o <= i then o else o + 1)
  {
    hide LinkWrites, Marked, Read, Take, Expected, Ordered;
    var at := bs[i].addr + HEADER + size;
    assert HeaderAt(w, lo, bs, o);
    HeadersApart(bs, lo, hi, o, i);
    SplitPositions(lo, hi, bs, i, size, i);
    SplitPositions(lo, hi, bs, i, size, o);
    if i + 1 < |bs| {
      HeadersApart(bs, lo, hi, o, i + 1);
      HeadersApart(bs, lo, hi, i, i + 1);
      SplitPositions(lo, hi, bs, i, size, i + 1);
    }
    SplitReads(w, mid, v, Slot(lo, bs[i].addr), bs[i].addr, Slot(lo, at), at, After(lo, bs, i + 1), size,
               Slot(lo, bs[o].addr));
    SplitExpected(bs, i, size, o);
  }

  lemma SplitAt(w: seq<Word>, mid: seq<Word>, k: int, addr: int, n: int, at: int, x: int, size: Word)
    requires LinkWrites(w, mid, k, addr, n, at, x, size) && k + HEADER_WORDS <= n
    ensures |mid| == |w| && InRange(w, k) && InRange(Marked(mid, k, size), n)
    ensures Read(Marked(mid, k, size), n) == Fields(MAGIC, w[k + F_NEXT], addr, 0, w[k + F_SIZE] - size - HEADER)
  {
  }

  lemma NewExpected(bs: seq<Block>, i: nat, size: int)
    requires i < |bs| && Splits(bs[i], size)
    ensures var r := Take(bs, i, size);
      && |r| == |bs| + 1 && r[i + 1].addr == bs[i].addr + HEADER + size
      && Expected(r, i + 1) == Fields(MAGIC, NextOf(bs, i), bs[i].addr, 0, bs[i].size - size - HEADER)
  {
  }

  lemma SplitNewHeader(w: seq<Word>, mid: seq<Word>, v: seq<Word>, lo: int, hi: int, bs: seq<Block>, i: nat, size: Word)
    requires Ordered(bs, lo, hi) && lo % 4 == 0 && i < |bs| && Decodes(w, lo, bs)
    requires Splits(bs[i], size) && size % 4 == 0
    requires SplitsBlock(w, mid, v, lo, bs, i, size)
    ensures |Take(bs, i, size)| == |bs| + 1 && HeaderAt(v, lo, Take(bs, i, size), i + 1)
  {
    hide LinkWrites, Marked, Ordered, Take;
    var at := bs[i].addr + HEADER + size;
    assert HeaderAt(w, lo, bs, i);
    SplitPositions(lo, hi, bs, i, size, i);
    if i + 1 < |bs| {
      HeadersApart(bs, lo, hi, i, i + 1);
      SplitPositions(lo, hi, bs, i, size, i + 1);
    }
    SplitAt(w, mid, Slot(lo, bs[i].addr), bs[i].addr, Slot(lo, at), at, After(lo, bs, i + 1), size);
    NewExpected(bs, i, size);
  }

  lemma SplitDecodes(w: seq<Word>, mid: seq<Word>, v: seq<Word>, lo: int, hi: int, bs: seq<Block>, i: nat, size: Word)
    requires Ordered(bs, lo, hi) && Bounded(lo, hi, w) && Decodes(w, lo, bs) && i < |bs|
    requires Splits(bs[i], size) && size % 4 == 0
    requires SplitsBlock(w, mid, v, lo, bs, i, size)
    ensures Decodes(v, lo, Take(bs, i, size))
  {
    var r := Take(bs, i, size);
    forall m | 0 <= m < |r| ensures HeaderAt(v, lo, r, m) {
      if m == i + 1 {
        SplitNewHeader(w, mid, v, lo, hi, bs, i, size);
      } else if m <= i {
        SplitOldHeader(w, mid, v, lo, hi, bs, i, size, m);
      } else {
        SplitOldHeader(w, mid, v, lo, hi, bs, i, size, m - 1);
      }
    }
  }

  lemma WholeDecodes(w: seq<Word>, v: seq<Word>, lo: int, hi: int, bs: seq<Block>, i: nat, size: Word)
    requires Ordered(bs, lo, hi) && Bounded(lo, hi, w) && Decodes(w, lo, bs) && i < |bs|
    requires !Splits(bs[i], size) && InRange(w, Slot(lo, bs[i].addr)) && v == Marked(w, Slot(lo, bs[i].addr), size)
    ensures Decodes(v, lo, Take(bs, i, size))
  {
    var r := Take(bs, i, size);
    forall m | 0 <= m < |r| ensures HeaderAt(v, lo, r, m) {
      assert HeaderAt(w, lo, bs, m);
      HeadersApart(bs, lo, hi, m, i);
    }
  }

  /** Everything `malloc` writes when it takes block `i` is in memory, without overlap. */
  ghost predicate Room(w: seq<Word>, lo: int, bs: seq<Block>, i: nat, size: Word)
  {
    && i < |bs| && HeaderAt(w, lo, bs, i) && 0 < bs[i].addr && bs[i].End() < TWO32
    && (Splits(bs[i], size) ==>
      var n, x := Slot(lo, bs[i].addr + HEADER + size), After(lo, bs, i + 1);
      && InRange(w, n) && Slot(lo, bs[i].addr) + HEADER_WORDS <= n
      && (i + 1 < |bs| ==> 0 < bs[i + 1].addr && n + HEADER_WORDS <= x && InRange(w, x)))
  }

  lemma EnoughRoom(w: seq<Word>, lo: int, hi: int, bs: seq<Block>, i: nat, size: Word)
    requires Ordered(bs, lo, hi) && Bounded(lo, hi, w) && Decodes(w, lo, bs) && i < |bs|
    requires size % 4 == 0 && size <= bs[i].size
    ensures Room(w, lo, bs, i, size)
  {
    BlockInside(bs, lo, hi, w, i);
    assert Sound(bs[i]) && HeaderAt(w, lo, bs, i);
    if Splits(bs[i], size) {
      SplitPositions(lo, hi, bs, i, size, i);
      if i + 1 < |bs| { SplitPositions(lo, hi, bs, i, size, i + 1); }
    }
    if i + 1 < |bs| { BlockInside(bs, lo, hi, w, i + 1); }
  }

  /** The words after all the writes of a `malloc` that takes block `i`. */
  ghost function Taken(w: seq<Word>, lo: int, bs: seq<Block>, i: nat, size: Word): seq<Word>
    requires Room(w, lo, bs, i, size)
  {
    var k, addr := Slot(lo, bs[i].addr), bs[i].addr;
    var at := addr + HEADER + size;
    Marked(if Splits(bs[i], size) then Linked(w, k, addr, Slot(lo, at), at, After(lo, bs, i + 1), size) else w,
           k, size)
  }

  lemma TakenSplits(w: seq<Word>, lo: int, bs: seq<Block>, i: nat, size: Word) returns (mid: seq<Word>)
    requires Room(w, lo, bs, i, size) && Splits(bs[i], size)
    ensures SplitsBlock(w, mid, Taken(w, lo, bs, i, size), lo, bs, i, size)
  {
    hide LinkWrites, Linked, Marked;
    var k, addr := Slot(lo, bs[i].addr), bs[i].addr;
    var at := addr + HEADER + size;
    mid := Linked(w, k, addr, Slot(lo, at), at, After(lo, bs, i + 1), size);
    LinkedWrites(w, k, addr, Slot(lo, at), at, After(lo, bs, i + 1), size);
  }

  /** They encode the list after `malloc`. */
  lemma TakenDecodes(w: seq<Word>, lo: int, hi: int, bs: seq<Block>, i: nat, size: Word)
    requires Ordered(bs, lo, hi) && Bounded(lo, hi, w) && Decodes(w, lo, bs)
    requires size % 4 == 0 && Room(w, lo, bs, i, size)
    ensures |Taken(w, lo, bs, i, size)| == |w| && Decodes(Taken(w, lo, bs, i, size), lo, Take(bs, i, size))
  {
    var v := Taken(w, lo, bs, i, size);
    if Splits(bs[i], size) {
      var mid := TakenSplits(w, lo, bs, i, size);
      SplitDecodes(w, mid, v, lo, hi, bs, i, size);
    } else {
      WholeDecodes(w, v, lo, hi, bs, i, size);
    }
  }

  // ---------- only headers are written ----------

  lemma TakenFrame(w: seq<Word>, lo: int, bs: seq<Block>, i: nat, size: Word, k: nat)
    requires Room(w, lo, bs, i, size) && k < |w| && Outside(lo, Take(bs, i, size), k)
    ensures Taken(w, lo, bs, i, size)[k] == w[k]
  {
    var r := Take(bs, i, size);
    assert !Covers(lo, r[i], k);
    if Splits(bs[i], size) {
      var mid := TakenSplits(w, lo, bs, i, size);
      assert !Covers(lo, r[i + 1], k);
      if i + 1 < |bs| { assert r[i + 2] == bs[i + 1] && !Covers(lo, r[i + 2], k); }
    }
  }

  // ---------- reading the list back from the words alone ----------

  /** The blocks met by following `next` pointers from address `p`, at most `fuel` of them. */
  function Follow(w: seq<Word>, lo: int, p: int, fuel: nat): seq<Block>
    decreases fuel
  {
    var k := Slot(lo, p);
    if p == 0 || fuel == 0 || !InRange(w, k) then []
    else
      var f := Read(w, k);
      [Block(p, f.size, f.mark != 0)] + Follow(w, lo, f.next, fuel - 1)
  }

  lemma {:induction false} FollowFrom(w: seq<Word>, lo: int, hi: int, bs: seq<Block>, i: nat, fuel: nat)
    requires Ordered(bs, lo, hi) && Bounded(lo, hi, w) && Decodes(w, lo, bs)
    requires i <= |bs| <= i + fuel
    ensures Follow(w, lo, if i < |bs| then bs[i].addr else 0, fuel) == bs[i..]
    decreases fuel
  {
    if i < |bs| {
      assert HeaderAt(w, lo, bs, i);
      BlockInside(bs, lo, hi, w, i);
      FollowFrom(w, lo, hi, bs, i + 1, fuel - 1);
      assert bs[i..] == [bs[i]] + bs[i + 1..];
    }
  }

  /** The words determine the list: walking the `next` pointers from the first header
      yields exactly the blocks, so two lists decoded from the same words are equal. */
  lemma FollowDecodes(w: seq<Word>, lo: int, hi: int, bs: seq<Block>, fuel: nat)
    requires Ordered(bs, lo, hi) && Bounded(lo, hi, w) && Decodes(w, lo, bs) && |bs| <= fuel
    ensures Follow(w, lo, lo, fuel) == bs
  {
    FollowFrom(w, lo, hi, bs, 0, fuel);
    assert bs[0..] == bs;
  }
}
