/** One 32-bit word of the frame bitmap: what setting, clearing and scanning bits does. */
module FrameBits {

  function Mask(j: nat): bv32
    requires j < 32
  {
    1 << j
  }

  /** Bit `j` of `w` is set. */
  predicate Has(w: bv32, j: nat)
    requires j < 32
  {
    w & Mask(j) != 0
  }

  lemma MasksDisjoint(j: nat, k: nat)
    requires j < 32 && k < 32 && j != k
    ensures Mask(j) & Mask(k) == 0
  {
  }

  lemma MaskOneBit(j: nat)
    requires j < 32
    ensures Mask(j) != 0 && Mask(j) & (Mask(j) - 1) == 0
  {
  }

  // Facts about words and masks as such.

  lemma OrOther(w: bv32, m: bv32, n: bv32)
    requires m & n == 0
    ensures (w | m) & n == w & n
  {
  }

  lemma AndNotOther(w: bv32, m: bv32, n: bv32)
    requires m & n == 0
    ensures (w & !m) & n == w & n
  {
  }

  lemma AndNotSame(w: bv32, m: bv32)
    ensures (w & !m) & m == 0
  {
  }

  // The same about bits.

  lemma SetSame(w: bv32, j: nat)
    requires j < 32
    ensures Has(w | Mask(j), j)
  {
    MaskOneBit(j);
  }

  lemma SetOtherAnd(w: bv32, j: nat, k: nat)
    requires j < 32 && k < 32 && j != k
    ensures (w | Mask(j)) & Mask(k) == w & Mask(k)
  {
    MasksDisjoint(j, k);
    OrOther(w, Mask(j), Mask(k));
  }

  lemma SetOther(w: bv32, j: nat, k: nat)
    requires j < 32 && k < 32 && j != k
    ensures Has(w | Mask(j), k) <==> Has(w, k)
  {
    SetOtherAnd(w, j, k);
  }

  lemma ClearSame(w: bv32, j: nat)
    requires j < 32
    ensures !Has(w & !Mask(j), j)
  {
    AndNotSame(w, Mask(j));
  }

  lemma ClearOtherAnd(w: bv32, j: nat, k: nat)
    requires j < 32 && k < 32 && j != k
    ensures (w & !Mask(j)) & Mask(k) == w & Mask(k)
  {
    MasksDisjoint(j, k);
    AndNotOther(w, Mask(j), Mask(k));
  }

  lemma ClearOther(w: bv32, j: nat, k: nat)
    requires j < 32 && k < 32 && j != k
    ensures Has(w & !Mask(j), k) <==> Has(w, k)
  {
    ClearOtherAnd(w, j, k);
  }

  lemma AllOnesHas(k: nat)
    requires k < 32
    ensures Has(0xffff_ffff, k)
  {
    MaskOneBit(k);
  }

  /** A word that is not all ones has a clear bit. */
  lemma ClearBit(w: bv32) returns (k: nat)
    requires w != 0xffff_ffff
    ensures k < 32 && !Has(w, k)
  {
    if w & 0xff != 0xff {
      k := if w & 0x1 == 0 then 0 else if w & 0x2 == 0 then 1 else if w & 0x4 == 0 then 2
        else if w & 0x8 == 0 then 3 else if w & 0x10 == 0 then 4 else if w & 0x20 == 0 then 5
        else if w & 0x40 == 0 then 6 else 7;
    } else if w & 0xff00 != 0xff00 {
      k := if w & 0x100 == 0 then 8 else if w & 0x200 == 0 then 9 else if w & 0x400 == 0 then 10
        else if w & 0x800 == 0 then 11 else if w & 0x1000 == 0 then 12 else if w & 0x2000 == 0 then 13
        else if w & 0x4000 == 0 then 14 else 15;
    } else if w & 0xff_0000 != 0xff_0000 {
      k := if w & 0x1_0000 == 0 then 16 else if w & 0x2_0000 == 0 then 17 else if w & 0x4_0000 == 0 then 18
        else if w & 0x8_0000 == 0 then 19 else if w & 0x10_0000 == 0 then 20 else if w & 0x20_0000 == 0 then 21
        else if w & 0x40_0000 == 0 then 22 else 23;
    } else {
      k := if w & 0x100_0000 == 0 then 24 else if w & 0x200_0000 == 0 then 25 else if w & 0x400_0000 == 0 then 26
        else if w & 0x800_0000 == 0 then 27 else if w & 0x1000_0000 == 0 then 28
        else if w & 0x2000_0000 == 0 then 29 else if w & 0x4000_0000 == 0 then 30 else 31;
    }
  }
}
