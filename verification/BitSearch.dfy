/** First-clear and first-set searches: bit_ffc and bit_ffs of
    freebsd2/include/bitstring.h, the bit-by-bit loops of
    netbsd/include/bitstring.h, and the corrected byte scans of
    freebsd5/include/bitstring.h.
 */
module BitSearch {
  import opened ByteMasks
  import opened BitString

  // ---------------------------------------------------------------- what is asked

  // v is the least clear bit below n, or -1 when every bit below n is set.
  ghost predicate IsFirstClear(s: seq<bv8>, n: int, v: int) {
    if v == -1 then
      n <= 8 * |s| && forall i :: 0 <= i < n ==> BitAt(s, i)
    else
      0 <= v < n && InArray(s, v) && !BitAt(s, v) && forall i :: 0 <= i < v ==> BitAt(s, i)
  }

  // v is the least set bit below n, or -1 when every bit below n is clear.
  ghost predicate IsFirstSet(s: seq<bv8>, n: int, v: int) {
    if v == -1 then
      n <= 8 * |s| && forall i :: 0 <= i < n ==> !BitAt(s, i)
    else
      0 <= v < n && InArray(s, v) && BitAt(s, v) && forall i :: 0 <= i < v ==> !BitAt(s, i)
  }

  ghost predicate SomeClear(s: seq<bv8>, n: int) {
    exists i :: 0 <= i < n && InArray(s, i) && !BitAt(s, i)
  }

  ghost predicate SomeSet(s: seq<bv8>, n: int) {
    exists i :: 0 <= i < n && InArray(s, i) && BitAt(s, i)
  }

  // A search of n bits stops inside the array: either the array holds n bits or
  // the search ends on a bit it does hold.
  ghost predicate ClearSearchFits(s: seq<bv8>, n: int) {
    n <= 8 * |s| || SomeClear(s, 8 * |s|)
  }

  ghost predicate SetSearchFits(s: seq<bv8>, n: int) {
    n <= 8 * |s| || SomeSet(s, 8 * |s|)
  }

  // The bits of bytes 0 ... nbits >> 3, which is what bit_ffc and bit_ffs scan
  function Window(nbits: int): int {
    8 * (nbits / 8 + 1)
  }

  // Least clear bit by trying each bit in turn from `from` on
  ghost function FirstClear(s: seq<bv8>, n: int, from: nat := 0): (v: int)
    requires ClearSearchFits(s, n)
    requires forall i :: 0 <= i < from ==> InArray(s, i) && BitAt(s, i)
    ensures IsFirstClear(s, n, v)
    decreases n - from
  {
    if from >= n then -1
    else if BitAt(s, from) then FirstClear(s, n, from + 1)
    else from
  }

  function Complement(s: seq<bv8>): (t: seq<bv8>)
    ensures |t| == |s|
  {
    seq(|s|, b requires 0 <= b < |s| => !s[b])
  }

  // ---------------------------------------------------------------- lemmas

  lemma FirstClearUnique(s: seq<bv8>, n: int, v: int, w: int)
    requires IsFirstClear(s, n, v) && IsFirstClear(s, n, w)
    ensures v == w
  {}

  lemma FirstSetUnique(s: seq<bv8>, n: int, v: int, w: int)
    requires IsFirstSet(s, n, v) && IsFirstSet(s, n, w)
    ensures v == w
  {}

  lemma ComplementAt(s: seq<bv8>, i: int)
    requires InArray(s, i)
    ensures BitAt(Complement(s), i) <==> !BitAt(s, i)
  {
    ComplementBit(s[i / 8], i % 8);
  }

  // Searching for a clear bit is searching the complement for a set bit.
  lemma SearchDuality(s: seq<bv8>, n: int, v: int)
    ensures IsFirstClear(s, n, v) <==> IsFirstSet(Complement(s), n, v)
    ensures IsFirstSet(s, n, v) <==> IsFirstClear(Complement(s), n, v)
  {
    forall i | InArray(s, i)
      ensures BitAt(Complement(s), i) <==> !BitAt(s, i)
    {
      ComplementAt(s, i);
    }
  }

  lemma FitDuality(s: seq<bv8>, n: int)
    ensures SomeSet(s, n) <==> SomeClear(Complement(s), n)
    ensures SetSearchFits(s, n) <==> ClearSearchFits(Complement(s), n)
  {
    forall i | InArray(s, i)
      ensures BitAt(Complement(s), i) <==> !BitAt(s, i)
    {
      ComplementAt(s, i);
    }
  }

  // The mask families are each other's complements: clearing a range is setting
  // it in the complement.
  lemma RangeDuality(s: seq<bv8>, start: nat, stop: nat)
    requires start / 8 < |s| && stop / 8 < |s|
    ensures NClearBytes(s, start, stop) == Complement(NSetBytes(Complement(s), start, stop))
  {
    var t := Complement(NSetBytes(Complement(s), start, stop));
    forall i
      ensures i in Members(NClearBytes(s, start, stop)) <==> i in Members(t)
    {
      if InArray(s, i) {
        NClearBit(s, start, stop, i);
        ComplementAt(s, i);
        NSetBit(Complement(s), start, stop, i);
        ComplementAt(NSetBytes(Complement(s), start, stop), i);
      }
    }
    MembersDetermineArray(NClearBytes(s, start, stop), t);
  }

  lemma FullByte(x: bv8)
    ensures x == 0xff <==> forall k: Offset :: Bit(x, k)
  {
    forall k: Offset
      ensures Bit(0xff, k)
    {
      AllBits(k);
    }
    if forall k: Offset :: Bit(x, k) {
      BitsDetermineByte(x, 0xff);
    }
  }

  lemma EmptyByte(x: bv8)
    ensures x == 0 <==> forall k: Offset :: !Bit(x, k)
  {
    forall k: Offset
      ensures !Bit(0, k)
    {
      NoBits(k);
    }
    if forall k: Offset :: !Bit(x, k) {
      BitsDetermineByte(x, 0);
    }
  }

  ghost predicate BytesAre(s: seq<bv8>, n: int, x: bv8) {
    forall c :: 0 <= c < n && c < |s| ==> s[c] == x
  }

  // Full bytes are full bits, empty bytes are empty bits.
  lemma FullBytes(s: seq<bv8>, n: nat)
    requires n <= |s| && BytesAre(s, n, 0xff)
    ensures forall i :: 0 <= i < 8 * n ==> BitAt(s, i)
  {
    forall i | 0 <= i < 8 * n
      ensures BitAt(s, i)
    {
      AllBits(i % 8);
    }
  }

  lemma EmptyBytes(s: seq<bv8>, n: nat)
    requires n <= |s| && BytesAre(s, n, 0)
    ensures forall i :: 0 <= i < 8 * n ==> !BitAt(s, i)
  {
    forall i | 0 <= i < 8 * n
      ensures !BitAt(s, i)
    {
      NoBits(i % 8);
    }
  }

  // What ClearSearchFits means for the byte scan: every byte it reaches, all
  // earlier ones being full, lies in the array.
  lemma ClearScanStaysInside(s: seq<bv8>, nbits: int)
    ensures ClearSearchFits(s, Window(nbits)) <==>
            forall b :: 0 <= b <= nbits / 8 && BytesAre(s, b, 0xff) ==> b < |s|
  {
    if BytesAre(s, |s|, 0xff) {
      FullBytes(s, |s|);
      forall b: int
        ensures BytesAre(s, b, 0xff)
      {}
    } else {
      var c :| 0 <= c < |s| && s[c] != 0xff;
      FullByte(s[c]);
      var k: Offset :| !Bit(s[c], k);
      assert !BitAt(s, 8 * c + k);
    }
  }

  lemma SetScanStaysInside(s: seq<bv8>, nbits: int)
    ensures SetSearchFits(s, Window(nbits)) <==>
            forall b :: 0 <= b <= nbits / 8 && BytesAre(s, b, 0) ==> b < |s|
  {
    if BytesAre(s, |s|, 0) {
      EmptyBytes(s, |s|);
      forall b: int
        ensures BytesAre(s, b, 0)
      {}
    } else {
      var c :| 0 <= c < |s| && s[c] != 0;
      EmptyByte(s[c]);
      var k: Offset :| Bit(s[c], k);
      assert BitAt(s, 8 * c + k);
    }
  }

  // ---------------------------------------------------------------- freebsd2

  // The inner loop of bit_ffc on a byte that is not full: shift the set bits out
  method SkipSetBits(x: bv8, start: int) returns (value: int)
    requires x != 0xff
    ensures start <= value < start + 8 && !Bit(x, value - start)
    ensures forall k: Offset :: k < value - start ==> Bit(x, k)
  {
    FullByte(x);
    value := start;
    var rest: bv32 := x as bv32;
    ghost var j: nat := 0;
    ShiftTable(x);
    while rest & 0x1 != 0
      invariant j < 8 && value == start + j && rest == Shifted(x, j)
      invariant forall k: Offset :: k < j ==> Bit(x, k)
      decreases 8 - j
    {
      ShiftedBit(x, j);
      ShiftOnce(x, j);
      assert j < 7;
      value, rest, j := value + 1, rest >> 1, j + 1;
    }
    ShiftedBit(x, j);
  }

  // The inner loop of bit_ffs on a byte that is not zero
  method SkipClearBits(x: bv8, start: int) returns (value: int)
    requires x != 0
    ensures start <= value < start + 8 && Bit(x, value - start)
    ensures forall k: Offset :: k < value - start ==> !Bit(x, k)
  {
    EmptyByte(x);
    value := start;
    var rest: bv32 := x as bv32;
    ghost var j: nat := 0;
    ShiftTable(x);
    while rest & 0x1 == 0
      invariant j < 8 && value == start + j && rest == Shifted(x, j)
      invariant forall k: Offset :: k < j ==> !Bit(x, k)
      decreases 8 - j
    {
      ShiftedBit(x, j);
      ShiftOnce(x, j);
      assert j < 7;
      value, rest, j := value + 1, rest >> 1, j + 1;
    }
    ShiftedBit(x, j);
  }

  // The first byte that is not full gives the first clear bit.
  lemma FirstClearInByte(s: seq<bv8>, b: nat, v: int)
    requires b < |s| && BytesAre(s, b, 0xff)
    requires 8 * b <= v < 8 * b + 8 && !Bit(s[b], v - 8 * b)
    requires forall k: Offset :: k < v - 8 * b ==> Bit(s[b], k)
    ensures IsFirstClear(s, 8 * b + 8, v)
  {
    FullBytes(s, b);
  }

  lemma FirstSetInByte(s: seq<bv8>, b: nat, v: int)
    requires b < |s| && BytesAre(s, b, 0)
    requires 8 * b <= v < 8 * b + 8 && Bit(s[b], v - 8 * b)
    requires forall k: Offset :: k < v - 8 * b ==> !Bit(s[b], k)
    ensures IsFirstSet(s, 8 * b + 8, v)
  {
    EmptyBytes(s, b);
  }

  // The outer loop of bit_ffc: bytes 0 ... stopbyte, whole bytes at a time
  method ScanForClear(name: array<bv8>, stopbyte: int) returns (value: int)
    requires ClearSearchFits(name[..], 8 * (stopbyte + 1))
    ensures IsFirstClear(name[..], 8 * (stopbyte + 1), value)
  {
    ClearScanStaysInside(name[..], stopbyte);
    value := -1;
    var byte := 0;
    while byte <= stopbyte
      invariant 0 <= byte && (byte <= stopbyte + 1 || byte == 0)
      invariant value == -1 && BytesAre(name[..], byte, 0xff)
    {
      assert name[..][byte] == name[byte];
      if name[byte] != 0xff {
        value := SkipSetBits(name[byte], byte * 8);
        FirstClearInByte(name[..], byte, value);
        break;
      }
      byte := byte + 1;
    }
    if value == -1 && stopbyte >= 0 {
      FullBytes(name[..], stopbyte + 1);
    }
  }

  // The outer loop of bit_ffs: bytes 0 ... stopbyte, whole bytes at a time
  method ScanForSet(name: array<bv8>, stopbyte: int) returns (value: int)
    requires SetSearchFits(name[..], 8 * (stopbyte + 1))
    ensures IsFirstSet(name[..], 8 * (stopbyte + 1), value)
  {
    SetScanStaysInside(name[..], stopbyte);
    value := -1;
    var byte := 0;
    while byte <= stopbyte
      invariant 0 <= byte && (byte <= stopbyte + 1 || byte == 0)
      invariant value == -1 && BytesAre(name[..], byte, 0)
    {
      assert name[..][byte] == name[byte];
      if name[byte] != 0 {
        value := SkipClearBits(name[byte], byte * 8);
        FirstSetInByte(name[..], byte, value);
        break;
      }
      byte := byte + 1;
    }
    if value == -1 && stopbyte >= 0 {
      EmptyBytes(name[..], stopbyte + 1);
    }
  }

  // bit_ffc of freebsd2: through the byte nbits lies in
  method FindFirstClear(name: array<bv8>, nbits: int) returns (value: int)
    requires ClearSearchFits(name[..], Window(nbits))
    ensures IsFirstClear(name[..], Window(nbits), value)
  {
    value := ScanForClear(name, nbits / 8);
  }

  // bit_ffs of freebsd2: through the byte nbits lies in
  method FindFirstSet(name: array<bv8>, nbits: int) returns (value: int)
    requires SetSearchFits(name[..], Window(nbits))
    ensures IsFirstSet(name[..], Window(nbits), value)
  {
    value := ScanForSet(name, nbits / 8);
  }

  // bit_ffc of freebsd5: through the byte nbits - 1 lies in, cut off at nbits
  method FindFirstClearCut(name: array<bv8>, nbits: int) returns (value: int)
    requires nbits > 0 ==> ClearSearchFits(name[..], 8 * BitstrSize(nbits))
    ensures IsFirstClear(name[..], nbits, value)
  {
    value := -1;
    if nbits > 0 {
      value := ScanForClear(name, (nbits - 1) / 8);
    }
    if value >= nbits {
      value := -1;
    }
  }

  // bit_ffs of freebsd5: through the byte nbits - 1 lies in, cut off at nbits
  method FindFirstSetCut(name: array<bv8>, nbits: int) returns (value: int)
    requires nbits > 0 ==> SetSearchFits(name[..], 8 * BitstrSize(nbits))
    ensures IsFirstSet(name[..], nbits, value)
  {
    value := -1;
    if nbits > 0 {
      value := ScanForSet(name, (nbits - 1) / 8);
    }
    if value >= nbits {
      value := -1;
    }
  }

  // bit_ffc of netbsd: bit by bit
  method FindFirstClearLoop(name: array<bv8>, nbits: int) returns (value: int)
    requires ClearSearchFits(name[..], nbits)
    ensures IsFirstClear(name[..], nbits, value)
  {
    value := -1;
    var bit := 0;
    while bit < nbits
      invariant 0 <= bit && (bit <= nbits || bit == 0)
      invariant value == -1
      invariant forall i :: 0 <= i < bit ==> InArray(name[..], i) && BitAt(name[..], i)
    {
      var r := BitTest(name, bit);
      if r == 0 {
        value := bit;
        break;
      }
      bit := bit + 1;
    }
  }

  // bit_ffs of netbsd: bit by bit
  method FindFirstSetLoop(name: array<bv8>, nbits: int) returns (value: int)
    requires SetSearchFits(name[..], nbits)
    ensures IsFirstSet(name[..], nbits, value)
  {
    value := -1;
    var bit := 0;
    while bit < nbits
      invariant 0 <= bit && (bit <= nbits || bit == 0)
      invariant value == -1
      invariant forall i :: 0 <= i < bit ==> InArray(name[..], i) && !BitAt(name[..], i)
    {
      var r := BitTest(name, bit);
      if r != 0 {
        value := bit;
        break;
      }
      bit := bit + 1;
    }
  }

  // ---------------------------------------------------------------- the versions compared

  // The freebsd2 answer v is the right answer w exactly when nothing is asked, or
  // some bit below nbits is clear, or the rest of the last byte is all set.
  lemma FirstClearRightIff(s: seq<bv8>, nbits: int, v: int, w: int)
    requires IsFirstClear(s, Window(nbits), v) && IsFirstClear(s, nbits, w)
    ensures v == w <==>
            || nbits < 0
            || SomeClear(s, nbits)
            || forall i :: nbits <= i < Window(nbits) && InArray(s, i) ==> BitAt(s, i)
  {}

  lemma FirstSetRightIff(s: seq<bv8>, nbits: int, v: int, w: int)
    requires IsFirstSet(s, Window(nbits), v) && IsFirstSet(s, nbits, w)
    ensures v == w <==>
            || nbits < 0
            || SomeSet(s, nbits)
            || forall i :: nbits <= i < Window(nbits) && InArray(s, i) ==> !BitAt(s, i)
  {}

  // Cutting the freebsd2 answer off at nbits, as freebsd5 does, always repairs it.
  lemma CutRepairsFirstClear(s: seq<bv8>, nbits: int, v: int)
    requires IsFirstClear(s, Window(nbits), v)
    ensures IsFirstClear(s, nbits, if v >= nbits then -1 else v)
  {}

  lemma CutRepairsFirstSet(s: seq<bv8>, nbits: int, v: int)
    requires IsFirstSet(s, Window(nbits), v)
    ensures IsFirstSet(s, nbits, if v >= nbits then -1 else v)
  {}

  // In an array from bit_alloc(nbits) the freebsd2 searches stay inside exactly
  // when nbits is no multiple of 8 or the bit they look for is there; the
  // freebsd5 and netbsd searches always do.
  lemma AllocatedSearchFits(s: seq<bv8>, nbits: nat)
    requires |s| == BitstrSize(nbits)
    ensures ClearSearchFits(s, Window(nbits)) <==> nbits % 8 != 0 || SomeClear(s, 8 * |s|)
    ensures SetSearchFits(s, Window(nbits)) <==> nbits % 8 != 0 || SomeSet(s, 8 * |s|)
    ensures ClearSearchFits(s, 8 * BitstrSize(nbits)) && SetSearchFits(s, 8 * BitstrSize(nbits))
    ensures ClearSearchFits(s, nbits) && SetSearchFits(s, nbits)
  {}

  // One byte 0x02 searched for one bit: freebsd2's bit_ffs answers 1, not -1.
  lemma FirstSetWrong()
    ensures IsFirstSet([2], Window(1), 1) && IsFirstSet([2], 1, -1)
  {
    MaskTable();
    assert !BitAt([2], 0) && BitAt([2], 1);
  }

  // One zero byte, as bit_alloc(8) makes it: both bytes bit_ffs looks at in search of
  // a set bit are reached, and the second is past the end.
  lemma FirstSetReadsOutside()
    ensures |[0 as bv8]| == BitstrSize(8) && !SetSearchFits([0], Window(8))
  {
    forall i | InArray([0], i)
      ensures !BitAt([0], i)
    {
      NoBits(i % 8);
    }
  }
}
