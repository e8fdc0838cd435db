/** The bit-by-bit range macros of netbsd/include/bitstring.h, the simple form
    the byte masks of freebsd2/include/bitstring.h are to agree with.
 */
module BitLoops {
  import opened ByteMasks
  import opened BitString

  function SetEach(s: seq<bv8>, start: int, stop: int): (t: seq<bv8>)
    requires start <= stop ==> 0 <= start && InArray(s, stop)
    ensures |t| == |s|
    decreases stop - start
  {
    if start <= stop then SetEach(SetBytes(s, start), start + 1, stop) else s
  }

  function ClearEach(s: seq<bv8>, start: int, stop: int): (t: seq<bv8>)
    requires start <= stop ==> 0 <= start && InArray(s, stop)
    ensures |t| == |s|
    decreases stop - start
  {
    if start <= stop then ClearEach(ClearBytes(s, start), start + 1, stop) else s
  }

  lemma {:induction false} SetEachMembers(s: seq<bv8>, start: int, stop: int)
    requires start <= stop ==> 0 <= start && InArray(s, stop)
    ensures Members(SetEach(s, start, stop)) == Members(s) + Range(start, stop)
    decreases stop - start
  {
    if start <= stop {
      SetMembers(s, start);
      SetEachMembers(SetBytes(s, start), start + 1, stop);
      assert Range(start, stop) == {start} + Range(start + 1, stop);
    }
  }

  lemma {:induction false} ClearEachMembers(s: seq<bv8>, start: int, stop: int)
    requires start <= stop ==> 0 <= start && InArray(s, stop)
    ensures Members(ClearEach(s, start, stop)) == Members(s) - Range(start, stop)
    decreases stop - start
  {
    if start <= stop {
      ClearMembers(s, start);
      ClearEachMembers(ClearBytes(s, start), start + 1, stop);
      assert Range(start, stop) == {start} + Range(start + 1, stop);
    }
  }

  // bit_nset as a loop of bit_set
  method NSetLoop(name: array<bv8>, start: int, stop: int)
    requires start <= stop ==> 0 <= start && stop < 8 * name.Length
    modifies name
    ensures name[..] == SetEach(old(name[..]), start, stop)
    ensures Members(name[..]) == old(Members(name[..])) + Range(start, stop)
  {
    SetEachMembers(name[..], start, stop);
    ghost var result := SetEach(name[..], start, stop);
    var i := start;
    while i <= stop
      invariant start <= i
      invariant SetEach(name[..], i, stop) == result
    {
      assert SetEach(name[..], i, stop) == SetEach(SetBytes(name[..], i), i + 1, stop);
      BitSet(name, i);
      i := i + 1;
    }
  }

  // bit_nclear as a loop of bit_clear
  method NClearLoop(name: array<bv8>, start: int, stop: int)
    requires start <= stop ==> 0 <= start && stop < 8 * name.Length
    modifies name
    ensures name[..] == ClearEach(old(name[..]), start, stop)
    ensures Members(name[..]) == old(Members(name[..])) - Range(start, stop)
  {
    ClearEachMembers(name[..], start, stop);
    ghost var result := ClearEach(name[..], start, stop);
    var i := start;
    while i <= stop
      invariant start <= i
      invariant ClearEach(name[..], i, stop) == result
    {
      assert ClearEach(name[..], i, stop) == ClearEach(ClearBytes(name[..], i), i + 1, stop);
      BitClear(name, i);
      i := i + 1;
    }
  }

  // With the ends in order the masks and the loop leave the same array.  Out of
  // order the loop does nothing, so they agree exactly when the stray bits the
  // masks touch were already set: always when both ends lie in one byte.
  lemma NSetAgreesWithLoop(s: seq<bv8>, start: nat, stop: nat)
    requires start / 8 < |s| && stop / 8 < |s|
    ensures NSetBytes(s, start, stop) == SetEach(s, start, stop) <==>
            start / 8 <= stop / 8 || Touched(start, stop) <= Members(s)
  {
    NSetMembers(s, start, stop);
    SetEachMembers(s, start, stop);
    TouchedIsRange(start, stop);
    if start / 8 <= stop / 8 || Touched(start, stop) <= Members(s) {
      if start / 8 > stop / 8 {
        assert Range(start, stop) == {};
      }
      MembersDetermineArray(NSetBytes(s, start, stop), SetEach(s, start, stop));
    }
  }

  lemma NClearAgreesWithLoop(s: seq<bv8>, start: nat, stop: nat)
    requires start / 8 < |s| && stop / 8 < |s|
    ensures NClearBytes(s, start, stop) == ClearEach(s, start, stop) <==>
            start / 8 <= stop / 8 || Touched(start, stop) !! Members(s)
  {
    NClearMembers(s, start, stop);
    ClearEachMembers(s, start, stop);
    TouchedIsRange(start, stop);
    if start / 8 <= stop / 8 || Touched(start, stop) !! Members(s) {
      if start / 8 > stop / 8 {
        assert Range(start, stop) == {};
      }
      MembersDetermineArray(NClearBytes(s, start, stop), ClearEach(s, start, stop));
    }
  }

  // Setting bits 8 ... 7 of two clear bytes: an empty range, yet every bit is set.
  lemma NSetOutOfOrder()
    ensures var s: seq<bv8> := [0, 0];
            SetEach(s, 8, 7) == s && NSetBytes(s, 8, 7) == [0xff, 0xff]
  {
    var s: seq<bv8> := [0, 0];
    EdgeTable();
    assert NSetBytes(s, 8, 7)[0] == 0xff;
    assert NSetBytes(s, 8, 7)[1] == 0xff;
  }

  // Clearing bits 8 ... 7 of two full bytes clears all sixteen.
  lemma NClearOutOfOrder()
    ensures var s: seq<bv8> := [0xff, 0xff];
            ClearEach(s, 8, 7) == s && NClearBytes(s, 8, 7) == [0, 0]
  {
    var s: seq<bv8> := [0xff, 0xff];
    EdgeTable();
    assert NClearBytes(s, 8, 7)[0] == 0;
    assert NClearBytes(s, 8, 7)[1] == 0;
  }
}
