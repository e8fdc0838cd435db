/** Bits of one byte, and the masks bitstring.h builds for them.

    A `bitstr_t` is an unsigned char; every mask is computed as a C int and
    truncated only when it is stored.  Ints are modelled by `bv32`, stored bytes
    by `bv8`.
 */
module ByteMasks {

  // A bit number within its byte: (bit & 0x7)
  type Offset = k: nat | k < 8

  // Assignment of an int to an unsigned char
  function Store(x: bv32): bv8 {
    (x & 0xff) as bv8
  }

  // _bit_mask
  function Mask(k: Offset): bv32 {
    1 << k
  }

  // Is bit k of the byte set?
  predicate Bit(x: bv8, k: Offset) {
    x as bv32 & Mask(k) != 0
  }

  // The four edge masks of bit_nclear and bit_nset, as the macros spell them.

  function ClearBelow(start: Offset): bv32 {
    0xff >> (8 - start)
  }

  function ClearAbove(stop: Offset): bv32 {
    0xff << (stop + 1)
  }

  function SetFrom(start: Offset): bv32 {
    0xff << start
  }

  function SetTo(stop: Offset): bv32 {
    0xff >> (7 - stop)
  }

  // `x &= m` and `x |= m` on an unsigned char

  function AndStore(x: bv8, m: bv32): bv8 {
    Store(x as bv32 & m)
  }

  function OrStore(x: bv8, m: bv32): bv8 {
    Store(x as bv32 | m)
  }

  // The byte shifted right j times, as the searches shift it
  function Shifted(x: bv8, j: nat): bv32
    requires j <= 8
  {
    x as bv32 >> j
  }

  // ---------------------------------------------------------------- lemmas

  predicate OneBit(m: bv32) {
    m == 1 || m == 2 || m == 4 || m == 8 || m == 16 || m == 32 || m == 64 || m == 128
  }

  lemma MaskTable()
    ensures Mask(0) == 1 && Mask(1) == 2 && Mask(2) == 4 && Mask(3) == 8
    ensures Mask(4) == 16 && Mask(5) == 32 && Mask(6) == 64 && Mask(7) == 128
  {}

  lemma MaskIsOneBit(k: Offset)
    ensures OneBit(Mask(k))
  {
    if k == 0 {} else if k == 1 {} else if k == 2 {} else if k == 3 {}
    else if k == 4 {} else if k == 5 {} else if k == 6 {} else {}
  }

  lemma AndOneBit(x: bv8, m: bv32, b: bv32)
    requires OneBit(b)
    ensures AndStore(x, m) as bv32 & b != 0 <==> x as bv32 & b != 0 && m & b != 0
  {}

  lemma OrOneBit(x: bv8, m: bv32, b: bv32)
    requires OneBit(b)
    ensures OrStore(x, m) as bv32 & b != 0 <==> x as bv32 & b != 0 || m & b != 0
  {}

  // Masking a byte keeps exactly the bits the mask has.
  lemma AndStoreBit(x: bv8, m: bv32, k: Offset)
    ensures Bit(AndStore(x, m), k) <==> Bit(x, k) && m & Mask(k) != 0
  {
    MaskIsOneBit(k);
    AndOneBit(x, m, Mask(k));
  }

  // Or-ing a mask into a byte adds exactly the bits the mask has.
  lemma OrStoreBit(x: bv8, m: bv32, k: Offset)
    ensures Bit(OrStore(x, m), k) <==> Bit(x, k) || m & Mask(k) != 0
  {
    MaskIsOneBit(k);
    OrOneBit(x, m, Mask(k));
  }

  lemma MaskBit(j: Offset, k: Offset)
    ensures Mask(j) & Mask(k) != 0 <==> j == k
    ensures !Mask(j) & Mask(k) != 0 <==> j != k
  {
    if j == 0 {} else if j == 1 {} else if j == 2 {} else if j == 3 {}
    else if j == 4 {} else if j == 5 {} else if j == 6 {} else {}
    if k == 0 {} else if k == 1 {} else if k == 2 {} else if k == 3 {}
    else if k == 4 {} else if k == 5 {} else if k == 6 {} else {}
  }

  // The edge masks, one offset at a time (only the stored byte matters)
  lemma EdgeTable()
    ensures ClearBelow(0) == 0 && ClearBelow(1) == 1 && ClearBelow(2) == 3 && ClearBelow(3) == 7
    ensures ClearBelow(4) == 15 && ClearBelow(5) == 31 && ClearBelow(6) == 63 && ClearBelow(7) == 127
    ensures SetTo(0) == 1 && SetTo(1) == 3 && SetTo(2) == 7 && SetTo(3) == 15
    ensures SetTo(4) == 31 && SetTo(5) == 63 && SetTo(6) == 127 && SetTo(7) == 255
    ensures SetFrom(0) == 0xff && SetFrom(1) == 0x1fe && SetFrom(2) == 0x3fc && SetFrom(3) == 0x7f8
    ensures SetFrom(4) == 0xff0 && SetFrom(5) == 0x1fe0 && SetFrom(6) == 0x3fc0 && SetFrom(7) == 0x7f80
    ensures ClearAbove(0) == 0x1fe && ClearAbove(1) == 0x3fc && ClearAbove(2) == 0x7f8
    ensures ClearAbove(3) == 0xff0 && ClearAbove(4) == 0x1fe0 && ClearAbove(5) == 0x3fc0
    ensures ClearAbove(6) == 0x7f80 && ClearAbove(7) == 0xff00
  {}

  // Each edge mask holds exactly the offsets on its side of the edge.
  lemma EdgeMaskBits(e: Offset, k: Offset)
    ensures ClearBelow(e) & Mask(k) != 0 <==> k < e
    ensures ClearAbove(e) & Mask(k) != 0 <==> e < k
    ensures SetFrom(e) & Mask(k) != 0 <==> e <= k
    ensures SetTo(e) & Mask(k) != 0 <==> k <= e
  {
    EdgeTable();
    MaskTable();
  }

  lemma CombinedMask(m: bv32, n: bv32, b: bv32)
    requires OneBit(b)
    ensures (m | n) & b != 0 <==> m & b != 0 || n & b != 0
    ensures (m & n) & b != 0 <==> m & b != 0 && n & b != 0
  {}

  // The mask of a range that lies within one byte
  lemma OneByteMaskBits(start: Offset, stop: Offset, k: Offset)
    ensures (ClearBelow(start) | ClearAbove(stop)) & Mask(k) != 0 <==> !(start <= k <= stop)
    ensures (SetFrom(start) & SetTo(stop)) & Mask(k) != 0 <==> start <= k <= stop
  {
    MaskIsOneBit(k);
    CombinedMask(ClearBelow(start), ClearAbove(stop), Mask(k));
    CombinedMask(SetFrom(start), SetTo(stop), Mask(k));
    EdgeMaskBits(start, k);
    EdgeMaskBits(stop, k);
  }

  // The three ways bit_nclear masks a byte, on the bits

  lemma ClearBelowBits(x: bv8, e: Offset, k: Offset)
    ensures Bit(AndStore(x, ClearBelow(e)), k) <==> Bit(x, k) && k < e
  {
    EdgeMaskBits(e, k);
    AndStoreBit(x, ClearBelow(e), k);
  }

  lemma ClearAboveBits(x: bv8, e: Offset, k: Offset)
    ensures Bit(AndStore(x, ClearAbove(e)), k) <==> Bit(x, k) && e < k
  {
    EdgeMaskBits(e, k);
    AndStoreBit(x, ClearAbove(e), k);
  }

  lemma ClearInsideBits(x: bv8, start: Offset, stop: Offset, k: Offset)
    ensures Bit(AndStore(x, ClearBelow(start) | ClearAbove(stop)), k) <==> Bit(x, k) && !(start <= k <= stop)
  {
    OneByteMaskBits(start, stop, k);
    AndStoreBit(x, ClearBelow(start) | ClearAbove(stop), k);
  }

  // The three ways bit_nset masks a byte, on the bits

  lemma SetFromBits(x: bv8, e: Offset, k: Offset)
    ensures Bit(OrStore(x, SetFrom(e)), k) <==> Bit(x, k) || e <= k
  {
    EdgeMaskBits(e, k);
    OrStoreBit(x, SetFrom(e), k);
  }

  lemma SetToBits(x: bv8, e: Offset, k: Offset)
    ensures Bit(OrStore(x, SetTo(e)), k) <==> Bit(x, k) || k <= e
  {
    EdgeMaskBits(e, k);
    OrStoreBit(x, SetTo(e), k);
  }

  lemma SetInsideBits(x: bv8, start: Offset, stop: Offset, k: Offset)
    ensures Bit(OrStore(x, SetFrom(start) & SetTo(stop)), k) <==> Bit(x, k) || start <= k <= stop
  {
    OneByteMaskBits(start, stop, k);
    OrStoreBit(x, SetFrom(start) & SetTo(stop), k);
  }

  lemma SameMaskedBits(x: bv8, y: bv8)
    requires x as bv32 & 1 != 0 <==> y as bv32 & 1 != 0
    requires x as bv32 & 2 != 0 <==> y as bv32 & 2 != 0
    requires x as bv32 & 4 != 0 <==> y as bv32 & 4 != 0
    requires x as bv32 & 8 != 0 <==> y as bv32 & 8 != 0
    requires x as bv32 & 16 != 0 <==> y as bv32 & 16 != 0
    requires x as bv32 & 32 != 0 <==> y as bv32 & 32 != 0
    requires x as bv32 & 64 != 0 <==> y as bv32 & 64 != 0
    requires x as bv32 & 128 != 0 <==> y as bv32 & 128 != 0
    ensures x == y
  {}

  // A byte is determined by its eight bits.
  lemma BitsDetermineByte(x: bv8, y: bv8)
    requires forall k: Offset :: Bit(x, k) == Bit(y, k)
    ensures x == y
  {
    MaskTable();
    assert Bit(x, 0) == Bit(y, 0) && Bit(x, 1) == Bit(y, 1);
    assert Bit(x, 2) == Bit(y, 2) && Bit(x, 3) == Bit(y, 3);
    assert Bit(x, 4) == Bit(y, 4) && Bit(x, 5) == Bit(y, 5);
    assert Bit(x, 6) == Bit(y, 6) && Bit(x, 7) == Bit(y, 7);
    SameMaskedBits(x, y);
  }

  lemma OneBitOfConstants(x: bv8, b: bv32)
    requires OneBit(b)
    ensures (0 as bv8) as bv32 & b == 0
    ensures (0xff as bv8) as bv32 & b != 0
    ensures (!x) as bv32 & b != 0 <==> x as bv32 & b == 0
  {}

  lemma NoBits(k: Offset)
    ensures !Bit(0, k)
  {
    MaskIsOneBit(k);
    OneBitOfConstants(0, Mask(k));
  }

  lemma AllBits(k: Offset)
    ensures Bit(0xff, k)
  {
    MaskIsOneBit(k);
    OneBitOfConstants(0, Mask(k));
  }

  lemma ComplementBit(x: bv8, k: Offset)
    ensures Bit(!x, k) <==> !Bit(x, k)
  {
    MaskIsOneBit(k);
    OneBitOfConstants(x, Mask(k));
  }

  // The shifts, one offset at a time
  lemma ShiftTable(x: bv8)
    ensures Shifted(x, 0) == x as bv32 && Shifted(x, 1) == x as bv32 >> 1
    ensures Shifted(x, 2) == x as bv32 >> 2 && Shifted(x, 3) == x as bv32 >> 3
    ensures Shifted(x, 4) == x as bv32 >> 4 && Shifted(x, 5) == x as bv32 >> 5
    ensures Shifted(x, 6) == x as bv32 >> 6 && Shifted(x, 7) == x as bv32 >> 7
    ensures Shifted(x, 8) == 0
  {}

  // The lowest bit of the shifted byte is the bit the search has reached.
  lemma ShiftedBit(x: bv8, j: Offset)
    ensures Shifted(x, j) & 1 != 0 <==> Bit(x, j)
  {
    ShiftTable(x);
    MaskTable();
  }

  // One more shift reaches the next bit.
  lemma ShiftOnce(x: bv8, j: Offset)
    ensures Shifted(x, j) >> 1 == Shifted(x, j + 1)
  {
    ShiftTable(x);
  }
}
