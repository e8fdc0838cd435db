/** Whole runs of the bit-string macros: every run on the byte array is a run on
    a set of numbers.  Range algebra and counting follow from that.
 */
module BitRuns {
  import opened ByteMasks
  import opened BitString
  import opened BitSearch
  import opened BitLoops

  datatype Op =
    | Set(bit: nat)
    | Clear(bit: nat)
    | NSet(start: nat, stop: nat)
    | NClear(start: nat, stop: nat)
  {
    // The bytes the macro touches lie in an array of len bytes.
    predicate Fits(len: nat) {
      match this
      case Set(bit) => bit / 8 < len
      case Clear(bit) => bit / 8 < len
      case NSet(start, stop) => start / 8 < len && stop / 8 < len
      case NClear(start, stop) => start / 8 < len && stop / 8 < len
    }
  }

  // A macro fits an array exactly when the numbers it is given are numbers of its bits.
  lemma FitsIff(op: Op, len: nat)
    ensures op.Fits(len) <==>
            match op
            case Set(bit) => bit < 8 * len
            case Clear(bit) => bit < 8 * len
            case NSet(start, stop) => start < 8 * len && stop < 8 * len
            case NClear(start, stop) => start < 8 * len && stop < 8 * len
  {}

  ghost predicate AllFit(ops: seq<Op>, len: nat) {
    forall j :: 0 <= j < |ops| ==> ops[j].Fits(len)
  }

  function ApplyBytes(s: seq<bv8>, op: Op): (t: seq<bv8>)
    requires op.Fits(|s|)
    ensures |t| == |s|
  {
    match op
    case Set(bit) => SetBytes(s, bit)
    case Clear(bit) => ClearBytes(s, bit)
    case NSet(start, stop) => NSetBytes(s, start, stop)
    case NClear(start, stop) => NClearBytes(s, start, stop)
  }

  ghost function ApplySet(m: set<int>, op: Op): set<int> {
    match op
    case Set(bit) => m + {bit}
    case Clear(bit) => m - {bit}
    case NSet(start, stop) => m + Touched(start, stop)
    case NClear(start, stop) => m - Touched(start, stop)
  }

  // The state after the whole run, on bytes and on sets
  function RunBytes(s: seq<bv8>, ops: seq<Op>): (t: seq<bv8>)
    requires AllFit(ops, |s|)
    ensures |t| == |s|
  {
    if ops == [] then s
    else ApplyBytes(RunBytes(s, ops[..|ops| - 1]), ops[|ops| - 1])
  }

  ghost function RunSet(m: set<int>, ops: seq<Op>): set<int> {
    if ops == [] then m
    else ApplySet(RunSet(m, ops[..|ops| - 1]), ops[|ops| - 1])
  }

  // bit_alloc's array
  function Zeroed(len: nat): (s: seq<bv8>)
    ensures |s| == len
  {
    seq(len, _ => 0)
  }

  lemma ZeroedIsEmpty(len: nat)
    ensures Members(Zeroed(len)) == {}
  {
    forall i | InArray(Zeroed(len), i)
      ensures !BitAt(Zeroed(len), i)
    {
      NoBits(i % 8);
    }
  }

  lemma ApplyRefines(s: seq<bv8>, op: Op)
    requires op.Fits(|s|)
    ensures Members(ApplyBytes(s, op)) == ApplySet(Members(s), op)
  {
    match op
    case Set(bit) => SetMembers(s, bit);
    case Clear(bit) => ClearMembers(s, bit);
    case NSet(start, stop) => NSetMembers(s, start, stop);
    case NClear(start, stop) => NClearMembers(s, start, stop);
  }

  lemma {:induction false} RunRefines(s: seq<bv8>, ops: seq<Op>)
    requires AllFit(ops, |s|)
    ensures Members(RunBytes(s, ops)) == RunSet(Members(s), ops)
  {
    if ops != [] {
      RunRefines(s, ops[..|ops| - 1]);
      ApplyRefines(RunBytes(s, ops[..|ops| - 1]), ops[|ops| - 1]);
    }
  }

  // From a fresh allocation, whatever run was made: bit_test is membership in the
  // set the run denotes, and the searches give the least non-member and the least
  // member of the bits they scan.
  lemma RunFromAlloc(len: nat, ops: seq<Op>, n: int)
    requires AllFit(ops, len)
    ensures
      var s, m := RunBytes(Zeroed(len), ops), RunSet({}, ops);
      && (forall i :: InArray(s, i) ==> (BitAt(s, i) <==> i in m))
      && (forall i :: i in m ==> InArray(s, i))
      && (forall v :: IsFirstClear(s, n, v) && v != -1 ==>
            0 <= v < n && v !in m && forall i :: 0 <= i < v ==> i in m)
      && (IsFirstClear(s, n, -1) <==> n <= 8 * len && forall i :: 0 <= i < n ==> i in m)
      && (forall v :: IsFirstSet(s, n, v) && v != -1 ==>
            v in m && v < n && forall i :: i in m ==> v <= i)
      && (IsFirstSet(s, n, -1) <==> n <= 8 * len && forall i :: i in m ==> n <= i)
  {
    ZeroedIsEmpty(len);
    RunRefines(Zeroed(len), ops);
    var s := RunBytes(Zeroed(len), ops);
    assert forall i :: InArray(s, i) ==> (BitAt(s, i) <==> i in Members(s));
  }

  // ---------------------------------------------------------------- range algebra

  // Two runs on one array leave the same array exactly when, on the set it holds,
  // they leave the same set.
  lemma SameSetSameArray(s: seq<bv8>, ops: seq<Op>, ops': seq<Op>)
    requires AllFit(ops, |s|) && AllFit(ops', |s|)
    ensures RunBytes(s, ops) == RunBytes(s, ops') <==> RunSet(Members(s), ops) == RunSet(Members(s), ops')
  {
    RunRefines(s, ops);
    RunRefines(s, ops');
    if RunSet(Members(s), ops) == RunSet(Members(s), ops') {
      MembersDetermineArray(RunBytes(s, ops), RunBytes(s, ops'));
    }
  }

  lemma ShortRuns(s: seq<bv8>, m: set<int>, x: Op, y: Op)
    requires x.Fits(|s|) && y.Fits(|s|)
    ensures RunBytes(s, []) == s && RunSet(m, []) == m
    ensures RunBytes(s, [x]) == ApplyBytes(s, x) && RunSet(m, [x]) == ApplySet(m, x)
    ensures RunBytes(s, [x, y]) == ApplyBytes(ApplyBytes(s, x), y)
    ensures RunSet(m, [x, y]) == ApplySet(ApplySet(m, x), y)
  {
    assert [x][..0] == [] && [x, y][..1] == [x];
  }

  lemma RangeJoins(a: int, b: int, c: int)
    requires a <= b + 1 && b <= c
    ensures Range(a, b) + Range(b + 1, c) == Range(a, c)
  {
    forall i
      ensures i in Range(a, b) + Range(b + 1, c) <==> i in Range(a, c)
    {}
  }

  lemma NSetJoins(s: seq<bv8>, a: nat, b: nat, c: nat)
    requires a <= b < c < 8 * |s|
    ensures NSetBytes(NSetBytes(s, a, b), b + 1, c) == NSetBytes(s, a, c)
  {
    var x, y, z := NSet(a, b), NSet(b + 1, c), NSet(a, c);
    TouchedIsRange(a, b);
    TouchedIsRange(b + 1, c);
    TouchedIsRange(a, c);
    RangeJoins(a, b, c);
    ShortRuns(s, Members(s), x, y);
    ShortRuns(s, Members(s), z, z);
    assert Members(s) + Range(a, b) + Range(b + 1, c) == Members(s) + (Range(a, b) + Range(b + 1, c));
    SameSetSameArray(s, [x, y], [z]);
  }

  lemma NClearUndoesNSet(s: seq<bv8>, a: nat, b: nat)
    requires a / 8 < |s| && b / 8 < |s|
    ensures NClearBytes(NSetBytes(s, a, b), a, b) == NClearBytes(s, a, b)
    ensures NClearBytes(NSetBytes(s, a, b), a, b) == s <==> Members(s) !! Touched(a, b)
  {
    var x, y := NSet(a, b), NClear(a, b);
    ShortRuns(s, Members(s), x, y);
    ShortRuns(s, Members(s), y, y);
    assert Members(s) + Touched(a, b) - Touched(a, b) == Members(s) - Touched(a, b);
    SameSetSameArray(s, [x, y], [y]);
    SameSetSameArray(s, [y], []);
  }

  // ---------------------------------------------------------------- counting

  lemma RangeEnds(start: int, stop: int)
    ensures Range(start, start - 1) == {} && Range(stop, stop) == {stop}
  {
    forall i
      ensures i in Range(stop, stop) <==> i == stop
      ensures i !in Range(start, start - 1)
    {}
  }

  lemma {:induction false} RangeSize(start: int, stop: int)
    requires start <= stop + 1
    ensures |Range(start, stop)| == stop - start + 1
    decreases stop - start
  {
    RangeEnds(start, stop);
    if start <= stop {
      RangeSize(start, stop - 1);
      RangeJoins(start, stop - 1, stop);
      assert stop !in Range(start, stop - 1);
    }
  }

  lemma UnionAndDifferenceSizes(m: set<int>, r: set<int>)
    ensures |m + r| == |m| + |r - m|
    ensures |m - r| == |m| - |r * m|
    ensures r !! m ==> |r - m| == |r|
    ensures r <= m ==> |r * m| == |r|
  {
    assert m + r == m + (r - m);
    assert m == (m - r) + (r * m);
    if r !! m {
      assert r - m == r;
    }
    if r <= m {
      assert r * m == r;
    }
  }

  // bit_nset adds one to the count for each clear bit of the range, bit_nclear
  // takes one off for each set bit.
  lemma RangeCounts(s: seq<bv8>, start: nat, stop: nat)
    requires start <= stop < 8 * |s|
    ensures |Members(NSetBytes(s, start, stop))| == |Members(s)| + |Range(start, stop) - Members(s)|
    ensures |Members(NClearBytes(s, start, stop))| == |Members(s)| - |Range(start, stop) * Members(s)|
    ensures Range(start, stop) !! Members(s) ==>
              |Members(NSetBytes(s, start, stop))| == |Members(s)| + (stop - start + 1)
    ensures Range(start, stop) <= Members(s) ==>
              |Members(NClearBytes(s, start, stop))| == |Members(s)| - (stop - start + 1)
  {
    TouchedIsRange(start, stop);
    NSetMembers(s, start, stop);
    NClearMembers(s, start, stop);
    RangeSize(start, stop);
    UnionAndDifferenceSizes(Members(s), Range(start, stop));
  }

  // ---------------------------------------------------------------- last writer wins

  predicate Sets(op: Op, i: int) {
    match op
    case Set(bit) => i == bit
    case NSet(start, stop) => i >= 0 && Touches(start, stop, i)
    case _ => false
  }

  predicate Clears(op: Op, i: int) {
    match op
    case Clear(bit) => i == bit
    case NClear(start, stop) => i >= 0 && Touches(start, stop, i)
    case _ => false
  }

  // Step j of the run set bit i and no later step cleared it.
  ghost predicate LastSetAt(ops: seq<Op>, i: int, j: int) {
    0 <= j < |ops| && Sets(ops[j], i) && forall k :: j < k < |ops| ==> !Clears(ops[k], i)
  }

  // Without running anything: bit i of the final array is set exactly when some
  // step set it and no later step cleared it.
  lemma {:induction false} LastWriterWins(ops: seq<Op>, i: int)
    ensures i in RunSet({}, ops) <==> exists j :: LastSetAt(ops, i, j)
  {
    if ops != [] {
      var n := |ops| - 1;
      var before := ops[..n];
      LastWriterWins(before, i);
      if i in RunSet({}, ops) {
        if Sets(ops[n], i) {
          assert LastSetAt(ops, i, n);
        } else {
          var j :| LastSetAt(before, i, j);
          assert LastSetAt(ops, i, j);
        }
      }
      if j :| LastSetAt(ops, i, j) {
        if j < n {
          assert LastSetAt(before, i, j);
        }
      }
    }
  }

  lemma RunBit(len: nat, ops: seq<Op>, i: int)
    requires AllFit(ops, len) && 0 <= i < 8 * len
    ensures BitAt(RunBytes(Zeroed(len), ops), i) <==> exists j :: LastSetAt(ops, i, j)
  {
    RunFromAlloc(len, ops, 0);
    LastWriterWins(ops, i);
  }
}
