/** The heap as a list of blocks in address order: what `malloc` and `free` do to
    that list, and what every run of them keeps. Sizes and addresses are in bytes. */
module BlockList {

  const HEADER := 20
  const MIN_SPLIT := 4

  datatype Block = Block(addr: int, size: int, used: bool) {
    function End(): int { addr + HEADER + size }
  }

  predicate Sound(b: Block)
  {
    b.addr % 4 == 0 && b.size >= 0 && b.size % 4 == 0
  }

  /** Block `i` ends at or before the header of block `i + 1`. */
  predicate Apart(bs: seq<Block>, i: int)
  {
    0 <= i < |bs| - 1 ==> bs[i].End() <= bs[i + 1].addr
  }

  /** Blocks `i` and `i + 1` are not both free. */
  predicate Mixed(bs: seq<Block>, i: int)
  {
    0 <= i < |bs| - 1 ==> bs[i].used || bs[i + 1].used
  }

  /** Blocks in address order inside `[lo, hi)`; a payload may stop short of the next header. */
  ghost predicate Ordered(bs: seq<Block>, lo: int, hi: int)
  {
    && |bs| > 0 && bs[0].addr == lo && bs[|bs| - 1].End() <= hi
    && (forall i :: 0 <= i < |bs| ==> Sound(bs[i]))
    && (forall i :: Apart(bs, i))
  }

  ghost predicate Coalesced(bs: seq<Block>)
  {
    forall i :: Mixed(bs, i)
  }

  /** The last block has room behind its header for the smallest remainder a split leaves. */
  predicate Ample(bs: seq<Block>, hi: int)
  {
    |bs| > 0 && bs[|bs| - 1].addr + HEADER + MIN_SPLIT <= hi
  }

  ghost predicate Inv(bs: seq<Block>, lo: int, hi: int)
  {
    Ordered(bs, lo, hi) && Coalesced(bs)
  }

  /** The live allocations, as a set. */
  ghost function Live(bs: seq<Block>): set<Block>
  {
    set b | b in bs && b.used
  }

  // ---------- the operations on the list ----------

  predicate Fits(b: Block, size: int)
  {
    !b.used && b.size >= size
  }

  /** Index of the first block that can hold `size` bytes, or |bs|. */
  function FirstFit(bs: seq<Block>, size: int): (i: nat)
    ensures i <= |bs|
    ensures i < |bs| ==> Fits(bs[i], size)
    ensures forall k :: 0 <= k < i ==> !Fits(bs[k], size)
  {
    if bs == [] || Fits(bs[0], size) then 0 else 1 + FirstFit(bs[1..], size)
  }

  predicate Splits(b: Block, size: int)
  {
    b.size >= size + HEADER + MIN_SPLIT
  }

  /** Take block `i` for `size` bytes, giving the rest back as a new block when it is large enough. */
  function Take(bs: seq<Block>, i: nat, size: int): seq<Block>
    requires i < |bs|
  {
    var b := bs[i];
    if Splits(b, size) then
      bs[..i]
      + [Block(b.addr, size, true), Block(b.addr + HEADER + size, b.size - size - HEADER, false)]
      + bs[i + 1..]
    else
      bs[i := Block(b.addr, size, true)]
  }

  /** Block `i` swallows block `i + 1`. */
  function Join(bs: seq<Block>, i: nat): seq<Block>
    requires i + 1 < |bs|
  {
    bs[..i] + [Block(bs[i].addr, bs[i].size + bs[i + 1].size + HEADER, bs[i].used)] + bs[i + 2..]
  }

  predicate JoinsBack(bs: seq<Block>, i: nat)
    requires i < |bs|
  {
    i > 0 && !bs[i - 1].used
  }

  /** First half of `free`: clear the mark, then merge into a free predecessor. */
  function ReleaseBack(bs: seq<Block>, i: nat): (r: seq<Block>)
    requires i < |bs|
  {
    var c := bs[i := bs[i].(used := false)];
    if JoinsBack(bs, i) then Join(c, i - 1) else c
  }

  function ReleaseAt(bs: seq<Block>, i: nat): (j: nat)
    requires i < |bs|
    ensures j < |ReleaseBack(bs, i)|
  {
    if JoinsBack(bs, i) then i - 1 else i
  }

  /** Second half of `free`: swallow a free successor. */
  function Release(bs: seq<Block>, i: nat): seq<Block>
    requires i < |bs|
  {
    var c := ReleaseBack(bs, i);
    var j := ReleaseAt(bs, i);
    if j + 1 < |c| && !c[j + 1].used then Join(c, j) else c
  }

  // ---------- every step keeps the list well formed ----------

  /** Blocks far apart in the list are apart in memory. */
  lemma {:induction false} OrderedFar(bs: seq<Block>, lo: int, hi: int, i: nat, j: nat)
    requires Ordered(bs, lo, hi) && i < j < |bs|
    ensures bs[i].End() <= bs[j].addr
    decreases j
  {
    assert Apart(bs, j - 1);
    if i < j - 1 { OrderedFar(bs, lo, hi, i, j - 1); assert Sound(bs[j - 1]); }
  }

  lemma OrderedAddr(bs: seq<Block>, lo: int, hi: int, i: nat, j: nat)
    requires Ordered(bs, lo, hi) && i <= j < |bs|
    ensures bs[i].addr <= bs[j].addr
  {
    assert Sound(bs[i]);
    if i < j { OrderedFar(bs, lo, hi, i, j); }
  }

  lemma TakeAt(bs: seq<Block>, i: nat, size: int, k: nat)
    requires i < |bs| && k < |Take(bs, i, size)|
    ensures var r, b := Take(bs, i, size), bs[i];
      && |r| == |bs| + (if Splits(b, size) then 1 else 0)
      && r[k] == if k < i then bs[k]
                 else if k == i then Block(b.addr, size, true)
                 else if !Splits(b, size) then bs[k]
                 else if k == i + 1 then Block(b.addr + HEADER + size, b.size - size - HEADER, false)
                 else bs[k - 1]
  {
  }

  lemma TakeLength(bs: seq<Block>, i: nat, size: int)
    requires i < |bs|
    ensures |Take(bs, i, size)| == |bs| + (if Splits(bs[i], size) then 1 else 0)
  {
  }

  lemma OrderedAt(bs: seq<Block>, lo: int, hi: int, k: nat)
    requires Ordered(bs, lo, hi) && k < |bs|
    ensures Sound(bs[k]) && (k + 1 < |bs| ==> bs[k].End() <= bs[k + 1].addr)
  {
    assert Apart(bs, k);
  }

  lemma TakeApart(bs: seq<Block>, i: nat, size: int, lo: int, hi: int, k: nat)
    requires Ordered(bs, lo, hi) && i < |bs| && Fits(bs[i], size) && size >= 0 && size % 4 == 0
    requires k < |Take(bs, i, size)|
    ensures Apart(Take(bs, i, size), k) && Sound(Take(bs, i, size)[k])
  {
    hide Take, Ordered;
    var r := Take(bs, i, size);
    TakeAt(bs, i, size, k);
    if k + 1 < |r| { TakeAt(bs, i, size, k + 1); }
    OrderedAt(bs, lo, hi, i);
    if k < |bs| { OrderedAt(bs, lo, hi, k); }
    if 0 < k <= |bs| { OrderedAt(bs, lo, hi, k - 1); }
  }

  lemma ApartOutside(bs: seq<Block>, k: int)
    requires k < 0 || k >= |bs|
    ensures Apart(bs, k)
  {
  }

  lemma TakeKeepsOrdered(bs: seq<Block>, i: nat, size: int, lo: int, hi: int)
    requires Ordered(bs, lo, hi) && i < |bs| && Fits(bs[i], size) && size >= 0 && size % 4 == 0
    ensures Ordered(Take(bs, i, size), lo, hi)
  {
    hide Take, Apart, Sound;
    var r := Take(bs, i, size);
    TakeLength(bs, i, size);
    TakeAt(bs, i, size, 0);
    TakeAt(bs, i, size, |r| - 1);
    forall k ensures Apart(r, k) {
      if 0 <= k < |r| { TakeApart(bs, i, size, lo, hi, k); } else { ApartOutside(r, k); }
    }
    forall k | 0 <= k < |r| ensures Sound(r[k]) {
      TakeApart(bs, i, size, lo, hi, k);
    }
  }

  lemma TakeKeepsCoalesced(bs: seq<Block>, i: nat, size: int)
    requires Coalesced(bs) && i < |bs| && !bs[i].used
    ensures Coalesced(Take(bs, i, size))
  {
    var r := Take(bs, i, size);
    var d := |r| - |bs|;
    assert forall k :: 0 <= k < i ==> r[k] == bs[k];
    assert forall k :: i + d < k < |r| ==> r[k] == bs[k - d];
    forall k ensures Mixed(r, k) {
      assert Mixed(bs, k) && Mixed(bs, k - d);
    }
  }

  lemma JoinKeepsOrdered(bs: seq<Block>, i: nat, lo: int, hi: int)
    requires Ordered(bs, lo, hi) && i + 1 < |bs|
    ensures Ordered(Join(bs, i), lo, hi)
  {
    var r := Join(bs, i);
    assert Sound(bs[i]) && Sound(bs[i + 1]) && Apart(bs, i);
    assert forall k :: 0 <= k < i ==> r[k] == bs[k];
    assert forall k :: i < k < |r| ==> r[k] == bs[k + 1];
    forall k ensures Apart(r, k) {
      assert Apart(bs, k) && Apart(bs, k + 1);
    }
  }

  lemma ClearKeepsOrdered(bs: seq<Block>, i: nat, lo: int, hi: int)
    requires Ordered(bs, lo, hi) && i < |bs|
    ensures Ordered(bs[i := bs[i].(used := false)], lo, hi)
  {
    var c := bs[i := bs[i].(used := false)];
    assert Sound(bs[i]);
    forall k ensures Apart(c, k) { assert Apart(bs, k); }
  }

  lemma BackKeepsOrdered(bs: seq<Block>, i: nat, lo: int, hi: int)
    requires Ordered(bs, lo, hi) && i < |bs|
    ensures Ordered(ReleaseBack(bs, i), lo, hi)
  {
    hide Join, Ordered;
    ClearKeepsOrdered(bs, i, lo, hi);
    if JoinsBack(bs, i) { JoinKeepsOrdered(bs[i := bs[i].(used := false)], i - 1, lo, hi); }
  }

  lemma ReleaseKeepsOrdered(bs: seq<Block>, i: nat, lo: int, hi: int)
    requires Ordered(bs, lo, hi) && i < |bs|
    ensures Ordered(Release(bs, i), lo, hi)
  {
    hide ReleaseBack, ReleaseAt, Join, Ordered;
    BackKeepsOrdered(bs, i, lo, hi);
    var d, j := ReleaseBack(bs, i), ReleaseAt(bs, i);
    if j + 1 < |d| && !d[j + 1].used { JoinKeepsOrdered(d, j, lo, hi); }
  }

  lemma BackShape(bs: seq<Block>, i: nat)
    requires i < |bs|
    ensures var j, d := ReleaseAt(bs, i), ReleaseBack(bs, i);
      && j <= i <= j + 1 && |d| == |bs| - (i - j) && j < |d| && d == bs[..j] + [d[j]] + bs[i + 1..]
      && d[j].addr == bs[j].addr && !d[j].used
      && (j < i ==> !bs[j].used) && (j == i ==> i == 0 || bs[i - 1].used)
      && (j + 1 < |d| ==> d[j + 1] == bs[i + 1])
  {
  }

  lemma JoinShape(bs: seq<Block>, d: seq<Block>, i: nat, j: nat)
    requires j <= i < |bs| && j + 1 < |d| && d == bs[..j] + [d[j]] + bs[i + 1..]
    ensures var r := Join(d, j);
      && |r| == |bs| - (i - j) - 1 && r == bs[..j] + [r[j]] + bs[i + 2..]
      && r[j].addr == d[j].addr && r[j].used == d[j].used
  {
    assert d[..j] == bs[..j];
    assert d[j + 2..] == bs[i + 2..];
  }

  /** How `free` rearranges the list: everything before the freed region is untouched,
      everything after it only moves down, and the region itself is one free block. */
  lemma ReleaseShape(bs: seq<Block>, i: nat) returns (j: nat, n: nat)
    requires i < |bs|
    ensures j == ReleaseAt(bs, i) && j <= i < j + n <= |bs|
    ensures forall k :: j <= k < j + n && k != i ==> !bs[k].used
    ensures j + n < |bs| && !bs[j + n].used ==> j + n > i + 1
    ensures j > 0 && !bs[j - 1].used ==> j < i
    ensures var r := Release(bs, i);
      |r| == |bs| - n + 1 && r == bs[..j] + [r[j]] + bs[j + n..]
      && r[j].addr == bs[j].addr && !r[j].used
  {
    hide ReleaseBack, ReleaseAt;
    j := ReleaseAt(bs, i);
    var d := ReleaseBack(bs, i);
    BackShape(bs, i);
    if j + 1 < |d| && !d[j + 1].used {
      n := i + 2 - j;
      JoinShape(bs, d, i, j);
    } else {
      n := i + 1 - j;
    }
  }

  /** Reading a list in which one block stands for `n` of another. */
  lemma SpliceAt(bs: seq<Block>, j: nat, n: nat, r: seq<Block>, k: nat)
    requires j + n <= |bs| && 0 < n && |r| == |bs| - n + 1 && r == bs[..j] + [r[j]] + bs[j + n..] && k < |r|
    ensures k < j ==> r[k] == bs[k]
    ensures k > j ==> r[k] == bs[k + n - 1]
  {
  }

  /** Replacing `n` blocks by one free block is harmless when its neighbours are in use. */
  lemma SpliceKeepsCoalesced(bs: seq<Block>, j: nat, n: nat, x: Block, r: seq<Block>)
    requires Coalesced(bs) && 0 < n && j + n <= |bs| && r == bs[..j] + [x] + bs[j + n..]
    requires j > 0 ==> bs[j - 1].used
    requires j + n < |bs| ==> bs[j + n].used
    ensures Coalesced(r)
  {
    forall k ensures Mixed(r, k) {
      if k < j { assert Mixed(bs, k); } else if k > j { assert Mixed(bs, k + n - 1); }
    }
  }

  lemma ReleaseKeepsCoalesced(bs: seq<Block>, i: nat)
    requires Coalesced(bs) && i < |bs| && bs[i].used
    ensures Coalesced(Release(bs, i))
  {
    var j, n := ReleaseShape(bs, i);
    var r := Release(bs, i);
    if j > 0 { assert Mixed(bs, j - 1); }
    assert Mixed(bs, j + n - 1);
    SpliceKeepsCoalesced(bs, j, n, r[j], r);
  }

  // ---------- what happens to the live allocations ----------

  lemma TakeLive(bs: seq<Block>, i: nat, size: int)
    requires i < |bs| && !bs[i].used
    ensures Live(Take(bs, i, size)) == Live(bs) + {Block(bs[i].addr, size, true)}
  {
    var r, n := Take(bs, i, size), Block(bs[i].addr, size, true);
    assert r[i] == n;
    var d := |r| - |bs|;
    forall b | b in Live(bs) + {n} ensures b in r {
      if b != n {
        var k :| 0 <= k < |bs| && bs[k] == b;
        assert r[if k < i then k else k + d] == b;
      }
    }
    forall b | b in Live(r) ensures b in Live(bs) + {n} {
      var k :| 0 <= k < |r| && r[k] == b;
      if k != i { assert b == bs[if k < i then k else k - d]; }
    }
  }

  lemma BlocksDistinct(bs: seq<Block>, lo: int, hi: int, i: nat, j: nat)
    requires Ordered(bs, lo, hi) && i < |bs| && j < |bs| && i != j
    ensures bs[i].addr != bs[j].addr
  {
    assert Sound(bs[i]) && Sound(bs[j]);
    if i < j { OrderedFar(bs, lo, hi, i, j); } else { OrderedFar(bs, lo, hi, j, i); }
  }

  /** Releasing block `i` drops no other live block... */
  lemma ReleaseSparesLive(bs: seq<Block>, i: nat, k: nat)
    requires i < |bs| && k < |bs| && k != i && bs[k].used
    ensures bs[k] in Release(bs, i)
  {
    hide Release, ReleaseAt;
    var j, n := ReleaseShape(bs, i);
    var r := Release(bs, i);
    SpliceAt(bs, j, n, r, if k < j then k else k - n + 1);
  }

  /** ...and invents none: every block it leaves keeps an old address, and is an old block
      other than `i` if it is in use. */
  lemma ReleaseOrigin(bs: seq<Block>, i: nat, k: nat) returns (m: nat)
    requires i < |bs| && k < |Release(bs, i)|
    ensures m < |bs| && Release(bs, i)[k].addr == bs[m].addr
    ensures Release(bs, i)[k].used ==> m != i && Release(bs, i)[k] == bs[m]
  {
    hide Release, ReleaseAt;
    var j, n := ReleaseShape(bs, i);
    m := if k <= j then k else k + n - 1;
    SpliceAt(bs, j, n, Release(bs, i), k);
  }

  lemma ReleaseLive(bs: seq<Block>, i: nat, lo: int, hi: int)
    requires Ordered(bs, lo, hi) && i < |bs| && bs[i].used
    ensures Live(Release(bs, i)) == Live(bs) - {bs[i]}
  {
    var r := Release(bs, i);
    forall b | b in Live(bs) - {bs[i]} ensures b in Live(r) {
      var k :| 0 <= k < |bs| && bs[k] == b;
      ReleaseSparesLive(bs, i, k);
    }
    forall b | b in Live(r) ensures b in Live(bs) - {bs[i]} {
      var k :| 0 <= k < |r| && r[k] == b;
      var m := ReleaseOrigin(bs, i, k);
      BlocksDistinct(bs, lo, hi, m, i);
    }
  }

  /** Any two live allocations are disjoint and lie, aligned, inside the heap. */
  lemma LiveDisjoint(bs: seq<Block>, lo: int, hi: int, a: Block, b: Block)
    requires Ordered(bs, lo, hi) && a in Live(bs) && b in Live(bs)
    ensures a != b ==> a.End() <= b.addr || b.End() <= a.addr
    ensures lo <= a.addr && a.End() <= hi && Sound(a)
  {
    var i :| 0 <= i < |bs| && bs[i] == a;
    var j :| 0 <= j < |bs| && bs[j] == b;
    var z := |bs| - 1;
    if i < j { OrderedFar(bs, lo, hi, i, j); }
    if j < i { OrderedFar(bs, lo, hi, j, i); }
    if 0 < i { OrderedFar(bs, lo, hi, 0, i); }
    if i < z { OrderedFar(bs, lo, hi, i, z); }
    assert Sound(bs[0]) && Sound(bs[z]);
  }

  // ---------- the last block keeps some room ----------

  lemma TakeKeepsAmple(bs: seq<Block>, i: nat, size: int, lo: int, hi: int)
    requires Ordered(bs, lo, hi) && Ample(bs, hi) && i < |bs|
    ensures Ample(Take(bs, i, size), hi)
  {
    TakeLength(bs, i, size);
    TakeAt(bs, i, size, |Take(bs, i, size)| - 1);
  }

  lemma ReleaseKeepsAmple(bs: seq<Block>, i: nat, lo: int, hi: int)
    requires Ordered(bs, lo, hi) && Ample(bs, hi) && i < |bs|
    ensures Ample(Release(bs, i), hi)
  {
    hide Release;
    var j, n := ReleaseShape(bs, i);
    var m := ReleaseOrigin(bs, i, |Release(bs, i)| - 1);
    OrderedAddr(bs, lo, hi, m, |bs| - 1);
  }

  /** An ample heap has every payload start before its end. */
  lemma AmpleStart(bs: seq<Block>, lo: int, hi: int, i: nat)
    requires Ordered(bs, lo, hi) && Ample(bs, hi) && i < |bs|
    ensures lo <= bs[i].addr && bs[i].addr + HEADER + MIN_SPLIT <= hi
  {
    OrderedAddr(bs, lo, hi, 0, i);
    OrderedAddr(bs, lo, hi, i, |bs| - 1);
  }

  // ---------- conservation ----------

  /** Bytes the first `n` blocks account for, headers included. */
  function TotalTo(bs: seq<Block>, n: nat): int
    requires n <= |bs|
  {
    if n == 0 then 0 else TotalTo(bs, n - 1) + bs[n - 1].size + HEADER
  }

  function Total(bs: seq<Block>): int
  {
    TotalTo(bs, |bs|)
  }

  /** Where the room after block `i` ends: at the next header, or at the end of the heap. */
  function RoomEnd(bs: seq<Block>, hi: int, i: nat): int
    requires i < |bs|
  {
    if i + 1 < |bs| then bs[i + 1].addr else hi
  }

  /** Bytes between the ends of the first `n` payloads and what follows each of them. */
  function GapsTo(bs: seq<Block>, hi: int, n: nat): int
    requires n <= |bs|
  {
    if n == 0 then 0 else GapsTo(bs, hi, n - 1) + RoomEnd(bs, hi, n - 1) - bs[n - 1].End()
  }

  /** Bytes of the heap that no header and no payload covers. */
  function Gaps(bs: seq<Block>, hi: int): int
  {
    GapsTo(bs, hi, |bs|)
  }

  lemma {:induction false} GapsAccountTo(bs: seq<Block>, hi: int, n: nat)
    requires 0 < n <= |bs|
    ensures TotalTo(bs, n) + GapsTo(bs, hi, n) == RoomEnd(bs, hi, n - 1) - bs[0].addr
  {
    if n > 1 { GapsAccountTo(bs, hi, n - 1); }
  }

  /** Headers, payloads and gaps make up the whole heap. */
  lemma GapsAccount(bs: seq<Block>, hi: int)
    requires |bs| > 0
    ensures Total(bs) + Gaps(bs, hi) == hi - bs[0].addr
  {
    GapsAccountTo(bs, hi, |bs|);
  }

  lemma {:induction false} TotalPrefix(a: seq<Block>, b: seq<Block>, n: nat)
    requires n <= |a| && n <= |b| && forall k :: 0 <= k < n ==> a[k].size == b[k].size
    ensures TotalTo(a, n) == TotalTo(b, n)
  {
    if n > 0 { TotalPrefix(a, b, n - 1); }
  }

  lemma {:induction false} TotalShift(a: seq<Block>, b: seq<Block>, i: nat, d: int, n: nat)
    requires i <= n <= |a| && 0 <= i + d && n + d <= |b|
    requires forall k :: i <= k < n ==> a[k].size == b[k + d].size
    ensures TotalTo(b, n + d) - TotalTo(b, i + d) == TotalTo(a, n) - TotalTo(a, i)
  {
    if n > i { TotalShift(a, b, i, d, n - 1); }
  }

  /** The bytes a `malloc` loses: none when it splits, else what it cut off the block. */
  function Slack(b: Block, size: int): int
  {
    if Splits(b, size) then 0 else b.size - size
  }

  lemma SlackBound(was: int, now: int)
    requires now <= was < now + HEADER + MIN_SPLIT && was % 4 == 0 && now % 4 == 0
    ensures was - now <= HEADER
  {
  }

  lemma TakeTotal(bs: seq<Block>, i: nat, size: int)
    requires i < |bs| && Fits(bs[i], size) && size % 4 == 0 && bs[i].size % 4 == 0
    ensures Total(Take(bs, i, size)) == Total(bs) - Slack(bs[i], size)
    ensures 0 <= Slack(bs[i], size) <= HEADER
  {
    var r, b := Take(bs, i, size), bs[i];
    var d := |r| - |bs|;
    TotalPrefix(bs, r, i);
    TotalShift(bs, r, i + 1, d, |bs|);
    assert TotalTo(r, i + 1) == TotalTo(r, i) + size + HEADER;
    if Splits(b, size) {
      assert TotalTo(r, i + 2) == TotalTo(r, i + 1) + b.size - size;
    } else {
      SlackBound(b.size, size);
    }
  }

  lemma JoinTotal(bs: seq<Block>, i: nat)
    requires i + 1 < |bs|
    ensures Total(Join(bs, i)) == Total(bs)
  {
    var r := Join(bs, i);
    TotalPrefix(bs, r, i);
    TotalShift(bs, r, i + 2, -1, |bs|);
  }

  lemma ReleaseTotal(bs: seq<Block>, i: nat)
    requires i < |bs|
    ensures Total(Release(bs, i)) == Total(bs)
  {
    var c := bs[i := bs[i].(used := false)];
    TotalPrefix(bs, c, |bs|);
    if JoinsBack(bs, i) { JoinTotal(c, i - 1); }
    var d, j := ReleaseBack(bs, i), ReleaseAt(bs, i);
    if j + 1 < |d| && !d[j + 1].used { JoinTotal(d, j); }
  }

  // ---------- undo and draining ----------

  /** Freeing what `malloc` just returned restores the list, except that an unsplit
      block has lost its slack for good. */
  lemma ReleaseUndoesTake(bs: seq<Block>, i: nat, size: int)
    requires Coalesced(bs) && i < |bs| && !bs[i].used
    ensures Release(Take(bs, i, size), i)
         == if Splits(bs[i], size) then bs else bs[i := bs[i].(size := size)]
  {
    var b, r := bs[i], Take(bs, i, size);
    assert Mixed(bs, i - 1) && Mixed(bs, i);
    var c := r[i := r[i].(used := false)];
    assert ReleaseBack(r, i) == c;
    if Splits(b, size) {
      assert c[..i] == bs[..i] && c[i + 2..] == bs[i + 1..];
      assert Join(c, i) == bs;
    } else {
      assert c == bs[i := b.(size := size)];
    }
  }

  /** A heap with nothing allocated is one free block. */
  lemma NothingLiveOneBlock(bs: seq<Block>, lo: int, hi: int)
    requires Inv(bs, lo, hi) && Live(bs) == {}
    ensures bs == [Block(lo, hi - lo - HEADER - Gaps(bs, hi), false)]
  {
    forall i | 0 <= i < |bs| ensures !bs[i].used {
      assert bs[i] in Live(bs) <==> bs[i].used;
    }
    assert Mixed(bs, 0);
    GapsAccount(bs, hi);
    assert TotalTo(bs, 1) == bs[0].size + HEADER;
  }

  /** Index of the block whose header is at `addr`, or |bs|. */
  function Find(bs: seq<Block>, addr: int): (i: nat)
    ensures i <= |bs|
    ensures i < |bs| ==> bs[i].addr == addr
    ensures i == |bs| ==> forall b :: b in bs ==> b.addr != addr
  {
    if bs == [] || bs[0].addr == addr then 0 else 1 + Find(bs[1..], addr)
  }

  lemma FindAt(bs: seq<Block>, lo: int, hi: int, i: nat)
    requires Ordered(bs, lo, hi) && i < |bs|
    ensures Find(bs, bs[i].addr) == i
  {
    var k := Find(bs, bs[i].addr);
    assert bs[i] in bs;
    assert Sound(bs[i]) && Sound(bs[k]);
    if k < i { OrderedFar(bs, lo, hi, k, i); }
    if i < k { OrderedFar(bs, lo, hi, i, k); }
  }

  /** Free the allocation whose header is at `addr`, when there is one. */
  function ReleaseAddr(bs: seq<Block>, addr: int): seq<Block>
  {
    var i := Find(bs, addr);
    if i < |bs| && bs[i].used then Release(bs, i) else bs
  }

  lemma ReleaseAddrKeeps(bs: seq<Block>, addr: int, lo: int, hi: int)
    requires Inv(bs, lo, hi)
    ensures var r := ReleaseAddr(bs, addr);
      && Inv(r, lo, hi)
      && Gaps(r, hi) == Gaps(bs, hi)
      && forall b :: b in Live(r) <==> b in Live(bs) && b.addr != addr
  {
    var i, r := Find(bs, addr), ReleaseAddr(bs, addr);
    if i < |bs| && bs[i].used {
      ReleaseKeepsOrdered(bs, i, lo, hi);
      ReleaseKeepsCoalesced(bs, i);
      ReleaseLive(bs, i, lo, hi);
      ReleaseTotal(bs, i);
      GapsAccount(bs, hi);
      GapsAccount(r, hi);
    }
    forall b | b in Live(bs) && b.addr == addr ensures i < |bs| && b == bs[i] {
      var k :| 0 <= k < |bs| && bs[k] == b;
      FindAt(bs, lo, hi, k);
    }
  }

  /** Free the allocations with these headers, in this order. */
  function ReleaseAll(bs: seq<Block>, addrs: seq<int>): seq<Block>
    decreases |addrs|
  {
    if addrs == [] then bs else ReleaseAll(ReleaseAddr(bs, addrs[0]), addrs[1..])
  }

  lemma LiveNone(bs: seq<Block>, addrs: seq<int>)
    requires addrs == [] && forall b :: b in Live(bs) ==> b.addr in addrs
    ensures Live(bs) == {}
  {
  }

  /** Freeing every live block, in any order, leaves one free block that has
      everything but the gaps that existed before. */
  lemma {:induction false} FreeingAllRestores(bs: seq<Block>, addrs: seq<int>, lo: int, hi: int)
    requires Inv(bs, lo, hi)
    requires forall b :: b in Live(bs) ==> b.addr in addrs
    ensures ReleaseAll(bs, addrs) == [Block(lo, hi - lo - HEADER - Gaps(bs, hi), false)]
    decreases |addrs|
  {
    hide Inv, Live, Gaps, ReleaseAddr;
    if addrs == [] {
      LiveNone(bs, addrs);
      NothingLiveOneBlock(bs, lo, hi);
    } else {
      var r := ReleaseAddr(bs, addrs[0]);
      ReleaseAddrKeeps(bs, addrs[0], lo, hi);
      forall b | b in Live(r) ensures b.addr in addrs[1..] {
        assert b in Live(bs) && b.addr != addrs[0];
      }
      FreeingAllRestores(r, addrs[1..], lo, hi);
    }
  }
}
