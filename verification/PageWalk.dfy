/** 32-bit paging as the hardware does it (Intel SDM Volume 3A, section 4.3): entries,
    the two-level walk, and the window a self-mapped directory opens on its own tables. */
module PageWalk {
  import opened Words

  type Frame = f: int | 0 <= f < 0x10_0000
  type Spare = s: int | 0 <= s < 8

  const ENTRIES := 1024
  /** The directory slot that points back at the directory. */
  const SELF := 1023
  const PAGE_TABLE_ADDRESS: Word := 0xFFC0_0000
  const PAGE_DIRECTORY_ADDRESS: Word := 0xFFFF_F000

  /** A directory or table entry: the bit fields of one 32-bit word, lowest bit first.
      `large` is the page size bit of a directory entry. */
  datatype Entry = Entry(present: bool, writable: bool, user: bool, writeThrough: bool, cacheOff: bool,
                         accessed: bool, dirty: bool, large: bool, global: bool, spare: Spare, frame: Frame)

  const EMPTY := Entry(false, false, false, false, false, false, false, false, false, 0, 0)

  // ---------- entries are words ----------

  /** The number whose lowest bits are `bits`, and whose other bits are `top`. */
  function FromBits(bits: seq<bool>, top: int): int
  {
    if bits == [] then top else 2 * FromBits(bits[1..], top) + if bits[0] then 1 else 0
  }

  /** The lowest `n` bits of `w`, and the rest. */
  function ToBits(w: int, n: nat): (seq<bool>, int)
    decreases n
  {
    if n == 0 then ([], w)
    else
      var (bits, top) := ToBits(w / 2, n - 1);
      ([w % 2 == 1] + bits, top)
  }

  lemma {:induction false} ToFromBits(bits: seq<bool>, top: int)
    ensures ToBits(FromBits(bits, top), |bits|) == (bits, top)
  {
    if bits != [] {
      ToFromBits(bits[1..], top);
      assert bits == [bits[0]] + bits[1..];
    }
  }

  lemma {:induction false} FromToBits(w: int, n: nat)
    ensures var (bits, top) := ToBits(w, n); |bits| == n && FromBits(bits, top) == w
    decreases n
  {
    if n > 0 {
      FromToBits(w / 2, n - 1);
      var (bits, top) := ToBits(w, n);
      assert bits[1..] == ToBits(w / 2, n - 1).0;
    }
  }

  function Flags(e: Entry): seq<bool>
  {
    [e.present, e.writable, e.user, e.writeThrough, e.cacheOff, e.accessed, e.dirty, e.large, e.global]
  }

  /** The word whose bit fields are `e`: bit 0 present, bit 1 writable, bit 2 user, bit 7
      page size, bits 12 to 31 the frame. */
  function Encode(e: Entry): int
  {
    FromBits(Flags(e), e.spare + 8 * e.frame)
  }

  /** `scale` doubled `n` times. */
  function Doubled(scale: nat, n: nat): nat
  {
    if n == 0 then scale else 2 * Doubled(scale, n - 1)
  }

  lemma {:induction false} ToBitsTop(w: nat, n: nat, scale: nat)
    requires w < Doubled(scale, n)
    ensures 0 <= ToBits(w, n).1 < scale && |ToBits(w, n).0| == n
  {
    if n > 0 { ToBitsTop(w / 2, n - 1, scale); }
  }

  function WithFlags(b: seq<bool>, spare: Spare, frame: Frame): Entry
    requires |b| == 9
  {
    Entry(b[0], b[1], b[2], b[3], b[4], b[5], b[6], b[7], b[8], spare, frame)
  }

  lemma FlagsBack(b: seq<bool>, spare: Spare, frame: Frame)
    requires |b| == 9
    ensures Flags(WithFlags(b, spare, frame)) == b
  {
  }

  lemma FlagsTell(e: Entry)
    ensures WithFlags(Flags(e), e.spare, e.frame) == e
  {
  }

  function Bit(b: bool): int { if b then 1 else 0 }

  lemma FromBitsStep(f: seq<bool>, k: nat, top: int)
    requires k < |f|
    ensures FromBits(f[k..], top) == 2 * FromBits(f[k + 1..], top) + Bit(f[k])
  {
    assert f[k..][1..] == f[k + 1..];
  }

  lemma FromBitsEnds(f: seq<bool>, top: int)
    ensures FromBits(f[|f|..], top) == top && f[0..] == f
  {
  }

  lemma LowBits(f: seq<bool>, top: int)
    requires |f| == 9
    ensures FromBits(f[6..], top) == Bit(f[6]) + 2 * Bit(f[7]) + 4 * Bit(f[8]) + 8 * top
    ensures FromBits(f, top) == Bit(f[0]) + 2 * Bit(f[1]) + 4 * Bit(f[2]) + 8 * FromBits(f[3..], top)
    ensures FromBits(f[3..], top) == Bit(f[3]) + 2 * Bit(f[4]) + 4 * Bit(f[5]) + 8 * FromBits(f[6..], top)
  {
    hide *;
    FromBitsEnds(f, top);
    FromBitsStep(f, 8, top);
    FromBitsStep(f, 7, top);
    FromBitsStep(f, 6, top);
    FromBitsStep(f, 5, top);
    FromBitsStep(f, 4, top);
    FromBitsStep(f, 3, top);
    FromBitsStep(f, 2, top);
    FromBitsStep(f, 1, top);
    FromBitsStep(f, 0, top);
  }

  lemma FlagsLength(e: Entry)
    ensures |Flags(e)| == 9
  {
  }

  lemma FlagsAre(e: Entry)
    ensures |Flags(e)| == 9
    ensures var f := Flags(e);
      && f[0] == e.present && f[1] == e.writable && f[2] == e.user && f[3] == e.writeThrough && f[4] == e.cacheOff
      && f[5] == e.accessed && f[6] == e.dirty && f[7] == e.large && f[8] == e.global
  {
    hide Flags;
    FlagsLength(e);
    FlagsTell(e);
  }

  lemma EncodeIs(e: Entry)
    ensures Encode(e) == FromBits(Flags(e), e.spare + 8 * e.frame)
  {
    hide FromBits, Flags;
  }

  /** Field by field: bit 0 present, bit 1 writable, bit 2 user, up to the frame from bit 12 on. */
  lemma EncodeBits(e: Entry)
    ensures Encode(e) == Bit(e.present) + 2 * Bit(e.writable) + 4 * Bit(e.user) + 8 * Bit(e.writeThrough)
                         + 16 * Bit(e.cacheOff) + 32 * Bit(e.accessed) + 64 * Bit(e.dirty) + 128 * Bit(e.large)
                         + 256 * Bit(e.global) + 512 * e.spare + 4096 * e.frame
  {
    hide *;
    EncodeIs(e);
    FlagsAre(e);
    LowBits(Flags(e), e.spare + 8 * e.frame);
  }

  lemma EntryOfWord(w: Word) returns (e: Entry)
    ensures Encode(e) == w
  {
    assert Doubled(0x80_0000, 9) == TWO32;
    ToBitsTop(w, 9, 0x80_0000);
    FromToBits(w, 9);
    var b, top := ToBits(w, 9).0, ToBits(w, 9).1;
    e := WithFlags(b, top % 8, top / 8);
    FlagsBack(b, top % 8, top / 8);
  }

  lemma SameFields(f: seq<bool>, s: Spare, p: Frame, g: seq<bool>, t: Spare, q: Frame)
    requires |f| == 9 == |g| && FromBits(f, s + 8 * p) == FromBits(g, t + 8 * q)
    ensures f == g && s == t && p == q
  {
    hide FromBits, ToBits;
    ToFromBits(f, s + 8 * p);
    ToFromBits(g, t + 8 * q);
  }

  lemma EncodeInjective(d: Entry, e: Entry)
    requires Encode(d) == Encode(e)
    ensures d == e
  {
    SameFields(Flags(d), d.spare, d.frame, Flags(e), e.spare, e.frame);
    FlagsTell(d);
    FlagsTell(e);
  }

  /** Every word of memory is the encoding of exactly one entry, so tables may be modelled
      as entries. */
  lemma WordsAreEntries(w: Word) returns (e: Entry)
    ensures Encode(e) == w && forall d :: Encode(d) == w ==> d == e
  {
    e := EntryOfWord(w);
    forall d | Encode(d) == w ensures d == e { EncodeInjective(d, e); }
  }

  // ---------- physical memory and the walk ----------

  /** Physical memory, frame by frame, 1024 entries each. */
  type Phys = seq<seq<Entry>>

  ghost predicate Framed(m: Phys)
  {
    |m| <= 0x10_0000 && forall f :: 0 <= f < |m| ==> |m[f]| == ENTRIES
  }

  /** The frame that page `j` of directory slot `i` is mapped to. */
  function WalkPage(m: Phys, dir: int, i: int, j: int): Option<int>
    requires Framed(m) && 0 <= dir < |m| && 0 <= i < ENTRIES && 0 <= j < ENTRIES
  {
    var pde := m[dir][i];
    if !pde.present then None
    else if pde.large then Some(pde.frame / ENTRIES * ENTRIES + j)
    else if pde.frame >= |m| || !m[pde.frame][j].present then None
    else Some(m[pde.frame][j].frame)
  }

  /** The frame a page is mapped to, and what may be done there. */
  datatype Access = Access(frame: int, writable: bool, user: bool)

  /** The page as the hardware grants it: a right holds when the entries of both levels give it
      (section 4.6). */
  function AccessPage(m: Phys, dir: int, i: int, j: int): Option<Access>
    requires Framed(m) && 0 <= dir < |m| && 0 <= i < ENTRIES && 0 <= j < ENTRIES
  {
    var pde := m[dir][i];
    if !pde.present then None
    else if pde.large then Some(Access(pde.frame / ENTRIES * ENTRIES + j, pde.writable, pde.user))
    else if pde.frame >= |m| || !m[pde.frame][j].present then None
    else
      var pte := m[pde.frame][j];
      Some(Access(pte.frame, pde.writable && pte.writable, pde.user && pte.user))
  }

  function FrameOf(a: Option<Access>): Option<int>
  {
    if a.Some? then Some(a.value.frame) else None
  }

  lemma AccessIsWalk(m: Phys, dir: int, i: int, j: int)
    requires Framed(m) && 0 <= dir < |m| && 0 <= i < ENTRIES && 0 <= j < ENTRIES
    ensures WalkPage(m, dir, i, j) == FrameOf(AccessPage(m, dir, i, j))
  {
  }

  function DirIndex(va: Word): int { va / 0x40_0000 }

  function TableIndex(va: Word): int { va / 0x1000 % 0x400 }

  /** The physical address of `va` when the directory is in frame `dir`. */
  function Walk(m: Phys, dir: int, va: Word): Option<int>
    requires Framed(m) && 0 <= dir < |m|
  {
    match WalkPage(m, dir, DirIndex(va), TableIndex(va))
    case None => None
    case Some(f) => Some(f * PAGE_SIZE + va % PAGE_SIZE)
  }

  /** The frame and entry index a load or store at `va` reaches, if it reaches memory. */
  ghost function Reach(m: Phys, dir: int, va: Word): Option<(int, int)>
  {
    if !(Framed(m) && 0 <= dir < |m|) then None
    else
      match Walk(m, dir, va)
      case None => None
      case Some(pa) =>
        if 0 <= pa / PAGE_SIZE < |m| && pa % 4 == 0 then Some((pa / PAGE_SIZE, pa % PAGE_SIZE / 4)) else None
  }

  // ---------- the self-map ----------

  ghost predicate SelfMapped(m: Phys, dir: int)
  {
    && Framed(m) && 0 <= dir < |m|
    && m[dir][SELF].present && !m[dir][SELF].large && m[dir][SELF].frame == dir
  }

  /** Address of entry `j` of the table in slot `i`, seen through the window. */
  function EntryAddress(i: int, j: int): (va: Word)
    requires 0 <= i < ENTRIES && 0 <= j < ENTRIES
  {
    PAGE_TABLE_ADDRESS + i * PAGE_SIZE + 4 * j
  }

  lemma EntryAddressParts(i: int, j: int)
    requires 0 <= i < ENTRIES && 0 <= j < ENTRIES
    ensures DirIndex(EntryAddress(i, j)) == SELF && TableIndex(EntryAddress(i, j)) == i
    ensures EntryAddress(i, j) % PAGE_SIZE == 4 * j
    ensures EntryAddress(SELF, j) == PAGE_DIRECTORY_ADDRESS + 4 * j
  {
    var va := EntryAddress(i, j);
    assert va / 0x1000 == 0xFFC00 + i;
  }

  /** Through the window, entry `j` of the table of any present slot `i` is reached at
      `EntryAddress(i, j)`; slot 1023 shows the directory itself. */
  lemma WindowReachesTables(m: Phys, dir: int, i: int, j: int)
    requires SelfMapped(m, dir) && 0 <= i < ENTRIES && 0 <= j < ENTRIES && m[dir][i].present
    ensures Walk(m, dir, EntryAddress(i, j)) == Some(m[dir][i].frame * PAGE_SIZE + 4 * j)
    ensures Walk(m, dir, PAGE_DIRECTORY_ADDRESS + 4 * i) == Some(dir * PAGE_SIZE + 4 * i)
  {
    EntryAddressParts(i, j);
    EntryAddressParts(SELF, i);
  }

  lemma EntryPlace(f: int, j: int)
    requires 0 <= j < 1024
    ensures (f * 4096 + 4 * j) / 4096 == f && (f * 4096 + 4 * j) % 4096 == 4 * j && (f * 4096 + 4 * j) % 4 == 0
  {
  }

  lemma ReachIs(m: Phys, dir: int, va: Word, f: int, j: int)
    requires Framed(m) && 0 <= dir < |m| && 0 <= f < |m| && 0 <= j < ENTRIES
    requires Walk(m, dir, va) == Some(f * PAGE_SIZE + 4 * j)
    ensures Reach(m, dir, va) == Some((f, j))
  {
    hide Walk, Framed;
    EntryPlace(f, j);
  }

  lemma WindowReach(m: Phys, dir: int, i: int, j: int)
    requires SelfMapped(m, dir) && 0 <= i < ENTRIES && 0 <= j < ENTRIES
    requires m[dir][i].present && m[dir][i].frame < |m|
    ensures Reach(m, dir, EntryAddress(i, j)) == Some((m[dir][i].frame, j))
  {
    hide Reach, Walk, EntryAddress;
    WindowReachesTables(m, dir, i, j);
    ReachIs(m, dir, EntryAddress(i, j), m[dir][i].frame, j);
  }
}
