/** The bit-string package of 4.4BSD (freebsd2/include/bitstring.h).

    A bit string is an array of unsigned chars.  `Members` reads it as a set of
    naturals; the functions ending in `Bytes` are the arrays the macros leave,
    and the methods are the macros themselves.
 */
module BitString {
  import opened ByteMasks

  // ---------------------------------------------------------------- the set

  predicate InArray(s: seq<bv8>, i: int) {
    0 <= i < 8 * |s|
  }

  // bit_test: byte i >> 3, mask 1 << (i & 0x7)
  predicate BitAt(s: seq<bv8>, i: int)
    requires InArray(s, i)
  {
    Bit(s[i / 8], i % 8)
  }

  // The numbers a bit string holds
  ghost function Members(s: seq<bv8>): set<int> {
    set i | 0 <= i < 8 * |s| && BitAt(s, i)
  }

  predicate InRange(start: int, stop: int, i: int) {
    start <= i <= stop
  }

  ghost function Range(start: int, stop: int): set<int> {
    set i | start <= i <= stop && InRange(start, stop, i)
  }

  // What bit_nset and bit_nclear touch.  In order, or within one byte, that is
  // the range; with the start in a later byte than the stop it is the rest of
  // the start's byte and the beginning of the stop's.
  predicate Touches(start: nat, stop: nat, i: int) {
    if start / 8 <= stop / 8 then start <= i <= stop
    else start <= i < 8 * (start / 8) + 8 || 8 * (stop / 8) <= i <= stop
  }

  ghost function Touched(start: nat, stop: nat): set<int> {
    set i | 0 <= i <= start + stop + 8 && Touches(start, stop, i)
  }

  // bitstr_size; the shift of a negative int rounds down, as Dafny's / does
  function BitstrSize(nbits: int): int {
    (nbits - 1) / 8 + 1
  }

  // It is the least number of bytes with nbits bits, and what the later versions
  // of the macro compute.
  lemma BitstrSizeIsLeast(nbits: int, bytes: int)
    requires nbits >= 0
    ensures BitstrSize(nbits) <= bytes <==> nbits <= 8 * bytes
    ensures BitstrSize(nbits) == (nbits + 7) / 8
  {}

  // ---------------------------------------------------------------- the arrays

  function SetBytes(s: seq<bv8>, bit: int): (t: seq<bv8>)
    requires InArray(s, bit)
    ensures |t| == |s|
  {
    s[bit / 8 := OrStore(s[bit / 8], Mask(bit % 8))]
  }

  function ClearBytes(s: seq<bv8>, bit: int): (t: seq<bv8>)
    requires InArray(s, bit)
    ensures |t| == |s|
  {
    s[bit / 8 := AndStore(s[bit / 8], !Mask(bit % 8))]
  }

  // What bit_nclear leaves in byte c, which held x, when the range starts at offset
  // j of byte a and stops at offset l of byte b
  function NClearByte(x: bv8, a: nat, j: Offset, b: nat, l: Offset, c: nat): bv8 {
    if a == b then
      if c == a then AndStore(x, ClearBelow(j) | ClearAbove(l)) else x
    else if c == a then AndStore(x, ClearBelow(j))
    else if c == b then AndStore(x, ClearAbove(l))
    else if a < c < b then 0
    else x
  }

  function NClearBytes(s: seq<bv8>, start: nat, stop: nat): (t: seq<bv8>)
    ensures |t| == |s|
  {
    seq(|s|, c requires 0 <= c < |s| => NClearByte(s[c], start / 8, start % 8, stop / 8, stop % 8, c))
  }

  // What bit_nset leaves in byte c, which held x, when the range starts at offset
  // j of byte a and stops at offset l of byte b
  function NSetByte(x: bv8, a: nat, j: Offset, b: nat, l: Offset, c: nat): bv8 {
    if a == b then
      if c == a then OrStore(x, SetFrom(j) & SetTo(l)) else x
    else if c == a then OrStore(x, SetFrom(j))
    else if c == b then OrStore(x, SetTo(l))
    else if a < c < b then 0xff
    else x
  }

  function NSetBytes(s: seq<bv8>, start: nat, stop: nat): (t: seq<bv8>)
    ensures |t| == |s|
  {
    seq(|s|, c requires 0 <= c < |s| => NSetByte(s[c], start / 8, start % 8, stop / 8, stop % 8, c))
  }

  // ---------------------------------------------------------------- lemmas

  lemma SetBit(s: seq<bv8>, bit: int, i: int)
    requires InArray(s, bit) && InArray(s, i)
    ensures BitAt(SetBytes(s, bit), i) <==> BitAt(s, i) || i == bit
  {
    if i / 8 == bit / 8 {
      OrStoreBit(s[i / 8], Mask(bit % 8), i % 8);
      MaskBit(bit % 8, i % 8);
    }
  }

  lemma ClearBit(s: seq<bv8>, bit: int, i: int)
    requires InArray(s, bit) && InArray(s, i)
    ensures BitAt(ClearBytes(s, bit), i) <==> BitAt(s, i) && i != bit
  {
    if i / 8 == bit / 8 {
      AndStoreBit(s[i / 8], !Mask(bit % 8), i % 8);
      MaskBit(bit % 8, i % 8);
    }
  }

  // Is offset k of byte c touched?
  predicate TouchesOffset(a: nat, j: Offset, b: nat, l: Offset, c: nat, k: Offset) {
    if a == b then c == a && j <= k <= l
    else if c == a then j <= k
    else if c == b then k <= l
    else a < c < b
  }

  lemma TouchesByByte(start: nat, stop: nat, i: nat)
    ensures Touches(start, stop, i) <==>
            TouchesOffset(start / 8, start % 8, stop / 8, stop % 8, i / 8, i % 8)
  {}

  lemma NClearByteBit(x: bv8, a: nat, j: Offset, b: nat, l: Offset, c: nat, k: Offset)
    ensures Bit(NClearByte(x, a, j, b, l, c), k) <==> Bit(x, k) && !TouchesOffset(a, j, b, l, c, k)
  {
    if a == b {
      ClearInsideBits(x, j, l, k);
    } else if c == a {
      ClearBelowBits(x, j, k);
    } else if c == b {
      ClearAboveBits(x, l, k);
    } else {
      NoBits(k);
    }
  }

  lemma NSetByteBit(x: bv8, a: nat, j: Offset, b: nat, l: Offset, c: nat, k: Offset)
    ensures Bit(NSetByte(x, a, j, b, l, c), k) <==> Bit(x, k) || TouchesOffset(a, j, b, l, c, k)
  {
    if a == b {
      SetInsideBits(x, j, l, k);
    } else if c == a {
      SetFromBits(x, j, k);
    } else if c == b {
      SetToBits(x, l, k);
    } else {
      AllBits(k);
    }
  }

  lemma NClearBit(s: seq<bv8>, start: nat, stop: nat, i: int)
    requires InArray(s, i)
    ensures BitAt(NClearBytes(s, start, stop), i) <==> BitAt(s, i) && !Touches(start, stop, i)
  {
    TouchesByByte(start, stop, i);
    NClearByteBit(s[i / 8], start / 8, start % 8, stop / 8, stop % 8, i / 8, i % 8);
  }

  lemma NSetBit(s: seq<bv8>, start: nat, stop: nat, i: int)
    requires InArray(s, i)
    ensures BitAt(NSetBytes(s, start, stop), i) <==> BitAt(s, i) || Touches(start, stop, i)
  {
    TouchesByByte(start, stop, i);
    NSetByteBit(s[i / 8], start / 8, start % 8, stop / 8, stop % 8, i / 8, i % 8);
  }

  lemma TouchesInArray(s: seq<bv8>, start: nat, stop: nat, i: int)
    requires start / 8 < |s| && stop / 8 < |s|
    ensures i in Touched(start, stop) <==> Touches(start, stop, i)
    ensures Touches(start, stop, i) ==> InArray(s, i)
  {}

  // Two arrays of one length holding the same numbers are the same array.
  lemma MembersDetermineArray(s: seq<bv8>, t: seq<bv8>)
    requires |s| == |t| && Members(s) == Members(t)
    ensures s == t
  {
    forall b | 0 <= b < |s|
      ensures s[b] == t[b]
    {
      forall k: Offset
        ensures Bit(s[b], k) == Bit(t[b], k)
      {
        var i := 8 * b + k;
        assert i in Members(s) <==> i in Members(t);
        assert BitAt(s, i) == Bit(s[b], k);
        assert BitAt(t, i) == Bit(t[b], k);
      }
      BitsDetermineByte(s[b], t[b]);
    }
  }

  // Each update of the array is one update of the set.

  lemma SetMembers(s: seq<bv8>, bit: int)
    requires InArray(s, bit)
    ensures Members(SetBytes(s, bit)) == Members(s) + {bit}
  {
    forall i | InArray(s, i)
      ensures i in Members(SetBytes(s, bit)) <==> i in Members(s) + {bit}
    {
      SetBit(s, bit, i);
    }
  }

  lemma ClearMembers(s: seq<bv8>, bit: int)
    requires InArray(s, bit)
    ensures Members(ClearBytes(s, bit)) == Members(s) - {bit}
  {
    forall i | InArray(s, i)
      ensures i in Members(ClearBytes(s, bit)) <==> i in Members(s) - {bit}
    {
      ClearBit(s, bit, i);
    }
  }

  lemma NSetMembers(s: seq<bv8>, start: nat, stop: nat)
    requires start / 8 < |s| && stop / 8 < |s|
    ensures Members(NSetBytes(s, start, stop)) == Members(s) + Touched(start, stop)
  {
    forall i
      ensures i in Members(NSetBytes(s, start, stop)) <==> i in Members(s) + Touched(start, stop)
    {
      TouchesInArray(s, start, stop, i);
      if InArray(s, i) {
        NSetBit(s, start, stop, i);
      }
    }
  }

  lemma NClearMembers(s: seq<bv8>, start: nat, stop: nat)
    requires start / 8 < |s| && stop / 8 < |s|
    ensures Members(NClearBytes(s, start, stop)) == Members(s) - Touched(start, stop)
  {
    forall i
      ensures i in Members(NClearBytes(s, start, stop)) <==> i in Members(s) - Touched(start, stop)
    {
      TouchesInArray(s, start, stop, i);
      if InArray(s, i) {
        NClearBit(s, start, stop, i);
      }
    }
  }

  // Given in order, the macros touch exactly start ... stop; given out of order
  // they touch nothing exactly when both ends lie in one byte.
  lemma TouchedIsRange(start: nat, stop: nat)
    ensures Touched(start, stop) == Range(start, stop) <==> start / 8 <= stop / 8
  {
    if start / 8 <= stop / 8 {
      forall i
        ensures i in Touched(start, stop) <==> i in Range(start, stop)
      {}
    } else {
      assert start in Touched(start, stop) && start !in Range(start, stop);
    }
  }

  // ---------------------------------------------------------------- the macros

  // bit_alloc; calloc is taken to succeed
  method BitAlloc(nbits: nat) returns (name: array<bv8>)
    ensures fresh(name) && name.Length == BitstrSize(nbits)
    ensures Members(name[..]) == {}
  {
    name := new bv8[BitstrSize(nbits)](_ => 0);
    forall i | InArray(name[..], i)
      ensures i !in Members(name[..])
    {
      NoBits(i % 8);
    }
  }

  // bit_test: an int that is non-zero when the bit is set
  method BitTest(name: array<bv8>, bit: nat) returns (r: bv32)
    requires bit / 8 < name.Length
    ensures r != 0 <==> bit in Members(name[..])
  {
    r := name[bit / 8] as bv32 & Mask(bit % 8);
    assert name[..][bit / 8] == name[bit / 8];
  }

  // bit_set
  method BitSet(name: array<bv8>, bit: nat)
    requires bit / 8 < name.Length
    modifies name
    ensures name[..] == SetBytes(old(name[..]), bit)
    ensures Members(name[..]) == old(Members(name[..])) + {bit}
  {
    SetMembers(name[..], bit);
    name[bit / 8] := OrStore(name[bit / 8], Mask(bit % 8));
  }

  // bit_clear
  method BitClear(name: array<bv8>, bit: nat)
    requires bit / 8 < name.Length
    modifies name
    ensures name[..] == ClearBytes(old(name[..]), bit)
    ensures Members(name[..]) == old(Members(name[..])) - {bit}
  {
    ClearMembers(name[..], bit);
    name[bit / 8] := AndStore(name[bit / 8], !Mask(bit % 8));
  }

  // The first byte, the bytes between, the last byte and the rest make up the array.
  lemma NClearByPieces(was: seq<bv8>, now: seq<bv8>, start: nat, stop: nat)
    requires start / 8 < |was| == |now| && stop / 8 < |was|
    requires start / 8 == stop / 8 ==>
               now[start / 8] == AndStore(was[start / 8], ClearBelow(start % 8) | ClearAbove(stop % 8))
    requires start / 8 != stop / 8 ==>
               && now[start / 8] == AndStore(was[start / 8], ClearBelow(start % 8))
               && now[stop / 8] == AndStore(was[stop / 8], ClearAbove(stop % 8))
    requires forall c :: start / 8 < c < stop / 8 ==> now[c] == 0
    requires forall c :: 0 <= c < |was| && c != start / 8 && c != stop / 8 && !(start / 8 < c < stop / 8) ==>
                           now[c] == was[c]
    ensures now == NClearBytes(was, start, stop)
  {}

  // bit_nclear
  method NClear(name: array<bv8>, start: nat, stop: nat)
    requires start / 8 < name.Length && stop / 8 < name.Length
    modifies name
    ensures name[..] == NClearBytes(old(name[..]), start, stop)
    ensures Members(name[..]) == old(Members(name[..])) - Touched(start, stop)
    ensures start / 8 <= stop / 8 ==> Members(name[..]) == old(Members(name[..])) - Range(start, stop)
  {
    ghost var was := name[..];
    var startbyte, stopbyte := start / 8, stop / 8;
    if startbyte == stopbyte {
      name[startbyte] := AndStore(name[startbyte], ClearBelow(start % 8) | ClearAbove(stop % 8));
    } else {
      ghost var first := startbyte;
      name[startbyte] := AndStore(name[startbyte], ClearBelow(start % 8));
      ghost var edge := name[startbyte];
      startbyte := startbyte + 1;
      while startbyte < stopbyte
        invariant first < startbyte && (startbyte <= stopbyte || stopbyte < first)
        invariant name[first] == edge
        invariant forall c :: first < c < startbyte && c < stopbyte ==> name[c] == 0
        invariant forall c :: 0 <= c < name.Length && c != first && !(first < c < startbyte && c < stopbyte) ==>
                                name[c] == was[c]
      {
        name[startbyte] := 0;
        startbyte := startbyte + 1;
      }
      name[stopbyte] := AndStore(name[stopbyte], ClearAbove(stop % 8));
    }
    NClearByPieces(was, name[..], start, stop);
    NClearMembers(was, start, stop);
    TouchedIsRange(start, stop);
  }

  // The first byte, the bytes between, the last byte and the rest make up the array.
  lemma NSetByPieces(was: seq<bv8>, now: seq<bv8>, start: nat, stop: nat)
    requires start / 8 < |was| == |now| && stop / 8 < |was|
    requires start / 8 == stop / 8 ==>
               now[start / 8] == OrStore(was[start / 8], SetFrom(start % 8) & SetTo(stop % 8))
    requires start / 8 != stop / 8 ==>
               && now[start / 8] == OrStore(was[start / 8], SetFrom(start % 8))
               && now[stop / 8] == OrStore(was[stop / 8], SetTo(stop % 8))
    requires forall c :: start / 8 < c < stop / 8 ==> now[c] == 0xff
    requires forall c :: 0 <= c < |was| && c != start / 8 && c != stop / 8 && !(start / 8 < c < stop / 8) ==>
                           now[c] == was[c]
    ensures now == NSetBytes(was, start, stop)
  {}

  // bit_nset
  method NSet(name: array<bv8>, start: nat, stop: nat)
    requires start / 8 < name.Length && stop / 8 < name.Length
    modifies name
    ensures name[..] == NSetBytes(old(name[..]), start, stop)
    ensures Members(name[..]) == old(Members(name[..])) + Touched(start, stop)
    ensures start / 8 <= stop / 8 ==> Members(name[..]) == old(Members(name[..])) + Range(start, stop)
  {
    ghost var was := name[..];
    var startbyte, stopbyte := start / 8, stop / 8;
    if startbyte == stopbyte {
      name[startbyte] := OrStore(name[startbyte], SetFrom(start % 8) & SetTo(stop % 8));
    } else {
      ghost var first := startbyte;
      name[startbyte] := OrStore(name[startbyte], SetFrom(start % 8));
      ghost var edge := name[startbyte];
      startbyte := startbyte + 1;
      while startbyte < stopbyte
        invariant first < startbyte && (startbyte <= stopbyte || stopbyte < first)
        invariant name[first] == edge
        invariant forall c :: first < c < startbyte && c < stopbyte ==> name[c] == 0xff
        invariant forall c :: 0 <= c < name.Length && c != first && !(first < c < startbyte && c < stopbyte) ==>
                                name[c] == was[c]
      {
        name[startbyte] := 0xff;
        startbyte := startbyte + 1;
      }
      name[stopbyte] := OrStore(name[stopbyte], SetTo(stop % 8));
    }
    NSetByPieces(was, name[..], start, stop);
    NSetMembers(was, start, stop);
    TouchedIsRange(start, stop);
  }
}
