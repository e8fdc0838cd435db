/** A bit string as a pool of numbers: take the first clear bit and set it,
    give one back by clearing it.  n is the number of bits the search scans:
    the whole last byte for freebsd2's bit_ffc, nbits for the corrected ones.
 */
module FirstFit {
  import opened ByteMasks
  import opened BitString
  import opened BitSearch
  import opened BitRuns

  datatype Action =
    | Take
    | Release(index: nat)   // give back the index-th number held, if there is one

  // held lists the numbers out, in the order they were taken; peak is the most
  // that were ever out at once.
  datatype Pool = Pool(bits: seq<bv8>, held: seq<int>, peak: nat)

  // Outside: some take read past the end of the array, and nothing more is known.
  datatype State = Inside(pool: Pool) | Outside

  function Fresh(len: nat): Pool {
    Pool(Zeroed(len), [], 0)
  }

  ghost predicate HeldInside(p: Pool) {
    forall k :: 0 <= k < |p.held| ==> InArray(p.bits, p.held[k])
  }

  ghost function TakeOne(p: Pool, n: nat): (q: Pool)
    requires ClearSearchFits(p.bits, n) && HeldInside(p)
    ensures |q.bits| == |p.bits| && HeldInside(q)
  {
    var v := FirstClear(p.bits, n);
    if v == -1 then p
    else
      var held := p.held + [v];
      Pool(SetBytes(p.bits, v), held, if |held| > p.peak then |held| else p.peak)
  }

  ghost function ReleaseOne(p: Pool, j: nat): (q: Pool)
    requires HeldInside(p)
    ensures |q.bits| == |p.bits| && HeldInside(q)
  {
    if j < |p.held| then
      Pool(ClearBytes(p.bits, p.held[j]), p.held[..j] + p.held[j + 1..], p.peak)
    else p
  }

  ghost function Step(p: Pool, n: nat, a: Action): (st: State)
    requires HeldInside(p)
    ensures st.Inside? ==> |st.pool.bits| == |p.bits| && HeldInside(st.pool)
  {
    match a
    case Take => if ClearSearchFits(p.bits, n) then Inside(TakeOne(p, n)) else Outside
    case Release(j) => Inside(ReleaseOne(p, j))
  }

  ghost function Run(len: nat, n: nat, acts: seq<Action>): (st: State)
    ensures st.Inside? ==> |st.pool.bits| == len && HeldInside(st.pool)
  {
    if acts == [] then Inside(Fresh(len))
    else
      var st := Run(len, n, acts[..|acts| - 1]);
      if st.Inside? then Step(st.pool, n, acts[|acts| - 1]) else Outside
  }

  ghost predicate Distinct(xs: seq<int>) {
    forall i, j :: 0 <= i < j < |xs| ==> xs[i] != xs[j]
  }

  ghost predicate Invariant(p: Pool, n: nat) {
    && HeldInside(p)
    && Distinct(p.held)
    && (forall x :: x in p.held <==> x in Members(p.bits))
    && (forall x :: x in p.held ==> 0 <= x < n && x < p.peak)
    && |p.held| <= p.peak
  }

  ghost function Elements(xs: seq<int>): set<int> {
    set x | x in xs
  }

  lemma {:induction false} DistinctSize(xs: seq<int>)
    requires Distinct(xs)
    ensures |Elements(xs)| == |xs|
  {
    if xs != [] {
      var n := |xs| - 1;
      DistinctSize(xs[..n]);
      assert Elements(xs) == Elements(xs[..n]) + {xs[n]};
    }
  }

  lemma SubsetSize(a: set<int>, b: set<int>)
    requires a <= b
    ensures |a| <= |b|
  {
    assert b == a + (b - a);
  }

  // The numbers below the one taken are all out, so it is at most how many are.
  lemma FirstFitBound(p: Pool, n: nat, v: nat)
    requires Invariant(p, n)
    requires forall i :: 0 <= i < v ==> i in p.held
    ensures v <= |p.held|
  {
    RangeSize(0, v - 1);
    DistinctSize(p.held);
    SubsetSize(Range(0, v - 1), Elements(p.held));
  }

  lemma TakeKeeps(p: Pool, n: nat)
    requires Invariant(p, n) && ClearSearchFits(p.bits, n)
    ensures Invariant(TakeOne(p, n), n)
  {
    var v := FirstClear(p.bits, n);
    if v != -1 {
      forall i | 0 <= i < v
        ensures i in p.held
      {
        assert i in Members(p.bits);
      }
      FirstFitBound(p, n, v);
      SetMembers(p.bits, v);
      assert v !in Members(p.bits);
    }
  }

  lemma ReleaseKeeps(p: Pool, n: nat, j: nat)
    requires Invariant(p, n)
    ensures Invariant(ReleaseOne(p, j), n)
  {
    if j < |p.held| {
      var q := ReleaseOne(p, j);
      ClearMembers(p.bits, p.held[j]);
      forall x
        ensures x in q.held <==> x in p.held && x != p.held[j]
      {
        if x in p.held && x != p.held[j] {
          var k :| 0 <= k < |p.held| && p.held[k] == x;
          assert q.held[if k < j then k else k - 1] == x;
        }
      }
    }
  }

  // Whatever was taken and given back, as long as the searches stayed inside: no
  // number is out twice, the set bits are the numbers out, and every number out is
  // below the most ever out at once.
  lemma {:induction false} PoolInvariant(len: nat, n: nat, acts: seq<Action>)
    ensures Run(len, n, acts).Inside? ==> Invariant(Run(len, n, acts).pool, n)
  {
    if acts == [] {
      ZeroedIsEmpty(len);
    } else {
      var k := |acts| - 1;
      PoolInvariant(len, n, acts[..k]);
      var st := Run(len, n, acts[..k]);
      if st.Inside? {
        match acts[k]
        case Take =>
          if ClearSearchFits(st.pool.bits, n) {
            TakeKeeps(st.pool, n);
          }
        case Release(j) => ReleaseKeeps(st.pool, n, j);
      }
    }
  }

  // The numbers out are as many as the array has bits exactly when every bit is set.
  lemma FullIffCounted(p: Pool, n: nat)
    requires Invariant(p, n)
    ensures |p.held| <= 8 * |p.bits|
    ensures SomeClear(p.bits, 8 * |p.bits|) <==> |p.held| < 8 * |p.bits|
  {
    var size := 8 * |p.bits|;
    DistinctSize(p.held);
    RangeSize(0, size - 1);
    assert Elements(p.held) <= Range(0, size - 1);
    SubsetSize(Elements(p.held), Range(0, size - 1));
    if i :| 0 <= i < size && InArray(p.bits, i) && !BitAt(p.bits, i) {
      assert i !in Members(p.bits);
      SubsetSize(Elements(p.held) + {i}, Range(0, size - 1));
    } else {
      forall i | 0 <= i < size
        ensures i in p.held
      {
        assert InArray(p.bits, i);
        assert i in Members(p.bits);
      }
      FirstFitBound(p, n, size);
    }
  }

  // After any run a search of m bits stays inside the array exactly when the array
  // holds m bits or not all its bits are out.
  lemma SearchFitsIff(len: nat, n: nat, acts: seq<Action>, m: int)
    requires Run(len, n, acts).Inside?
    ensures
      var p := Run(len, n, acts).pool;
      ClearSearchFits(p.bits, m) <==> m <= 8 * len || |p.held| < 8 * len
  {
    PoolInvariant(len, n, acts);
    FullIffCounted(Run(len, n, acts).pool, n);
  }

  // Step j takes with every bit of the array out.
  ghost predicate TakesFromFull(len: nat, n: nat, acts: seq<Action>, j: nat) {
    && j < |acts| && acts[j].Take?
    && Run(len, n, acts[..j]).Inside?
    && |Run(len, n, acts[..j]).pool.held| == 8 * len
  }

  // A run reads outside the array exactly when the search scans more bits than the
  // array has and some step takes with every one of them out.
  lemma {:induction false} RunLeavesIff(len: nat, n: nat, acts: seq<Action>)
    ensures Run(len, n, acts).Outside? <==>
            n > 8 * len && exists j: nat :: TakesFromFull(len, n, acts, j)
  {
    if acts != [] {
      var k := |acts| - 1;
      var before := acts[..k];
      RunLeavesIff(len, n, before);
      forall j: nat | j < k
        ensures TakesFromFull(len, n, acts, j) <==> TakesFromFull(len, n, before, j)
      {
        assert before[..j] == acts[..j];
      }
      if Run(len, n, before).Inside? {
        SearchFitsIff(len, n, before, n);
        PoolInvariant(len, n, before);
        FullIffCounted(Run(len, n, before).pool, n);
        assert TakesFromFull(len, n, acts, k) <==>
               acts[k].Take? && |Run(len, n, before).pool.held| == 8 * len;
        assert forall j: nat :: TakesFromFull(len, n, acts, j) ==> j < k || j == k;
      } else {
        var j: nat :| TakesFromFull(len, n, before, j);
        assert TakesFromFull(len, n, acts, j);
      }
    }
  }

  // After any run a first-clear search answers the least number not out, and none
  // exactly when n are out.
  lemma AnswerIsLeastFree(len: nat, n: nat, acts: seq<Action>)
    requires Run(len, n, acts).Inside?
    requires ClearSearchFits(Run(len, n, acts).pool.bits, n)
    ensures
      var p := Run(len, n, acts).pool;
      var v := FirstClear(p.bits, n);
      && (v == -1 <==> |p.held| == n)
      && (v != -1 ==> v !in p.held && 0 <= v <= |p.held| && forall i :: 0 <= i < v ==> i in p.held)
  {
    PoolInvariant(len, n, acts);
    var p := Run(len, n, acts).pool;
    var v := FirstClear(p.bits, n);
    DistinctSize(p.held);
    RangeSize(0, n - 1);
    assert Elements(p.held) <= Range(0, n - 1);
    forall i | 0 <= i < (if v == -1 then n else v)
      ensures i in p.held
    {
      assert i in Members(p.bits);
    }
    if v == -1 {
      FirstFitBound(p, n, n);
      SubsetSize(Elements(p.held), Range(0, n - 1));
    } else {
      FirstFitBound(p, n, v);
      assert v !in Members(p.bits);
      SubsetSize(Elements(p.held) + {v}, Range(0, n - 1));
    }
  }

  lemma RunOneMore(len: nat, n: nat, acts: seq<Action>, a: Action)
    ensures
      var st := Run(len, n, acts);
      Run(len, n, acts + [a]) == if st.Inside? then Step(st.pool, n, a) else Outside
  {
    assert (acts + [a])[..|acts|] == acts;
  }

  // A take after any run gets the least number not out, at most as many as are out,
  // and puts it last among them; it finds none, changing nothing, exactly when n are
  // out.
  lemma TakeAnswers(len: nat, n: nat, acts: seq<Action>)
    requires Run(len, n, acts).Inside? && Run(len, n, acts + [Take]).Inside?
    ensures
      var p, q := Run(len, n, acts).pool, Run(len, n, acts + [Take]).pool;
      if |p.held| == n then q == p
      else
        && |q.held| == |p.held| + 1 && q.held[..|p.held|] == p.held
        && var v := q.held[|p.held|];
           v !in p.held && 0 <= v <= |p.held| && v < n && forall i :: 0 <= i < v ==> i in p.held
  {
    RunOneMore(len, n, acts, Take);
    AnswerIsLeastFree(len, n, acts);
  }

  // What a take does, for every run: v being the least number not out, or n, it is
  // handed out and its bit set, or nothing changes.
  lemma TakeGets(len: nat, n: nat, acts: seq<Action>, v: nat)
    requires Run(len, n, acts).Inside? && Run(len, n, acts + [Take]).Inside?
    requires v <= n && v !in Run(len, n, acts).pool.held
    requires forall i :: 0 <= i < v ==> i in Run(len, n, acts).pool.held
    ensures
      var p, q := Run(len, n, acts).pool, Run(len, n, acts + [Take]).pool;
      && q.held == p.held + (if v < n then [v] else [])
      && Members(q.bits) == Members(p.bits) + (if v < n then {v} else {})
  {
    var p := Run(len, n, acts).pool;
    RunOneMore(len, n, acts, Take);
    PoolInvariant(len, n, acts);
    AnswerIsLeastFree(len, n, acts);
    var w := FirstClear(p.bits, n);
    if w != -1 {
      SetMembers(p.bits, w);
    }
  }

  lemma RemoveOne(xs: seq<int>, j: nat)
    requires Distinct(xs) && j < |xs|
    ensures
      var ys := xs[..j] + xs[j + 1..];
      xs[j] !in ys && multiset(ys) == multiset(xs) - multiset{xs[j]}
  {
    assert xs == xs[..j] + [xs[j]] + xs[j + 1..];
  }

  // What a release does, for every run: the number named is out no longer, its bit
  // is clear, and the others stay out in their order; an index past the end changes
  // nothing.
  lemma ReleaseGives(len: nat, n: nat, acts: seq<Action>, j: nat)
    requires Run(len, n, acts).Inside?
    ensures Run(len, n, acts + [Release(j)]).Inside?
    ensures
      var p, q := Run(len, n, acts).pool, Run(len, n, acts + [Release(j)]).pool;
      if j < |p.held| then
        && p.held[j] !in q.held
        && multiset(q.held) == multiset(p.held) - multiset{p.held[j]}
        && q.held == p.held[..j] + p.held[j + 1..]
        && Members(q.bits) == Members(p.bits) - {p.held[j]}
      else q == p
  {
    var p := Run(len, n, acts).pool;
    RunOneMore(len, n, acts, Release(j));
    PoolInvariant(len, n, acts);
    if j < |p.held| {
      ClearMembers(p.bits, p.held[j]);
      RemoveOne(p.held, j);
    }
  }

  // A number released is the next one taken, when every smaller one is out.
  lemma ReleasedIsTakenNext(len: nat, n: nat, acts: seq<Action>, j: nat)
    requires Run(len, n, acts).Inside? && j < |Run(len, n, acts).pool.held|
    requires forall i :: 0 <= i < Run(len, n, acts).pool.held[j] ==> i in Run(len, n, acts).pool.held
    ensures Run(len, n, acts + [Release(j)] + [Take]).Inside?
    ensures
      var p, q := Run(len, n, acts).pool, Run(len, n, acts + [Release(j)] + [Take]).pool;
      && q.held == p.held[..j] + p.held[j + 1..] + [p.held[j]]
      && q.bits == p.bits
  {
    var p := Run(len, n, acts).pool;
    var x := p.held[j];
    var given := acts + [Release(j)];
    PoolInvariant(len, n, acts);
    ReleaseGives(len, n, acts, j);
    var r := Run(len, n, given).pool;
    PoolInvariant(len, n, given);
    assert x in p.held;
    forall i | 0 <= i < x
      ensures i in r.held
    {
      assert i in Members(p.bits);
    }
    SearchFitsIff(len, n, given, n);
    FullIffCounted(p, n);
    RunOneMore(len, n, given, Take);
    TakeGets(len, n, given, x);
    MembersDetermineArray(Run(len, n, given + [Take]).pool.bits, p.bits);
  }

  lemma StepPeak(p: Pool, n: nat, a: Action)
    requires HeldInside(p) && |p.held| <= p.peak && Step(p, n, a).Inside?
    ensures
      var q := Step(p, n, a).pool;
      && |q.held| <= q.peak
      && q.peak == if |q.held| > p.peak then |q.held| else p.peak
  {}

  // After the first m actions h numbers were out.
  ghost predicate HeldAfter(len: nat, n: nat, acts: seq<Action>, m: nat, h: int) {
    && m <= |acts|
    && Run(len, n, acts[..m]).Inside?
    && |Run(len, n, acts[..m]).pool.held| == h
  }

  lemma HeldAfterEarlier(len: nat, n: nat, acts: seq<Action>, m: nat, h: int)
    requires m < |acts|
    ensures HeldAfter(len, n, acts, m, h) <==> HeldAfter(len, n, acts[..|acts| - 1], m, h)
  {
    assert acts[..|acts| - 1][..m] == acts[..m];
  }

  // peak is the most numbers that were out after any of the actions: never more ...
  lemma {:induction false} PeakIsBound(len: nat, n: nat, acts: seq<Action>, m: nat, h: int)
    requires Run(len, n, acts).Inside? && HeldAfter(len, n, acts, m, h)
    ensures h <= Run(len, n, acts).pool.peak
  {
    PoolInvariant(len, n, acts);
    if m == |acts| {
      assert acts[..m] == acts;
    } else {
      var k := |acts| - 1;
      HeldAfterEarlier(len, n, acts, m, h);
      PeakIsBound(len, n, acts[..k], m, h);
      PoolInvariant(len, n, acts[..k]);
      StepPeak(Run(len, n, acts[..k]).pool, n, acts[k]);
    }
  }

  // ... and that many after one of them.
  lemma {:induction false} PeakIsReached(len: nat, n: nat, acts: seq<Action>) returns (m: nat)
    requires Run(len, n, acts).Inside?
    ensures HeldAfter(len, n, acts, m, Run(len, n, acts).pool.peak)
  {
    assert acts[..|acts|] == acts;
    m := |acts|;
    if acts != [] {
      var k := |acts| - 1;
      var p, q := Run(len, n, acts[..k]).pool, Run(len, n, acts).pool;
      PoolInvariant(len, n, acts[..k]);
      StepPeak(p, n, acts[k]);
      if q.peak == p.peak {
        m := PeakIsReached(len, n, acts[..k]);
        HeldAfterEarlier(len, n, acts, m, p.peak);
      }
    }
  }

  function Takes(k: nat): (acts: seq<Action>)
    ensures |acts| == k
  {
    seq(k, _ => Take)
  }

  function Numbers(k: nat): (xs: seq<int>)
    ensures |xs| == k
  {
    seq(k, i => i)
  }

  lemma NumbersHold(k: nat)
    ensures forall x :: x in Numbers(k) <==> 0 <= x < k
  {
    forall x | 0 <= x < k
      ensures x in Numbers(k)
    {
      assert Numbers(k)[x] == x;
    }
  }

  lemma TakesAndNumbersGrow(k: nat)
    ensures Takes(k + 1) == Takes(k) + [Take] && Numbers(k + 1) == Numbers(k) + [k]
  {}

  // k takes in a row get 0, 1, ..., k - 1 in that order.
  lemma {:induction false} TakesCountUp(len: nat, n: nat, k: nat)
    requires k <= n && k <= 8 * len
    ensures Run(len, n, Takes(k)).Inside?
    ensures Run(len, n, Takes(k)).pool.held == Numbers(k)
  {
    if k > 0 {
      var before := Takes(k - 1);
      TakesAndNumbersGrow(k - 1);
      NumbersHold(k - 1);
      TakesCountUp(len, n, k - 1);
      SearchFitsIff(len, n, before, n);
      RunOneMore(len, n, before, Take);
      TakeGets(len, n, before, k - 1);
    }
  }

  // ---------------------------------------------------------------- nbits numbers

  // The pool made by bit_alloc(nbits) and searched by freebsd2's bit_ffc
  ghost function AllocatedRun(nbits: nat, acts: seq<Action>): (st: State)
    ensures st.Inside? ==> |st.pool.bits| == BitstrSize(nbits) && HeldInside(st.pool)
  {
    Run(BitstrSize(nbits), Window(nbits), acts)
  }

  // After any run the next take stays inside exactly when nbits is no multiple of 8
  // or fewer than nbits numbers are out.
  lemma NextTakeInsideIff(nbits: nat, acts: seq<Action>)
    requires AllocatedRun(nbits, acts).Inside?
    ensures
      AllocatedRun(nbits, acts + [Take]).Inside? <==>
      nbits % 8 != 0 || |AllocatedRun(nbits, acts).pool.held| < nbits
  {
    SearchFitsIff(BitstrSize(nbits), Window(nbits), acts, Window(nbits));
    assert (acts + [Take])[..|acts|] == acts;
    assert nbits % 8 == 0 ==> 8 * BitstrSize(nbits) == nbits;
  }

  // When it does, its answer is right exactly while a number below nbits is free, or
  // once the whole last byte is out.
  lemma PoolAnswerRightIff(nbits: nat, acts: seq<Action>, w: int)
    requires AllocatedRun(nbits, acts).Inside? && AllocatedRun(nbits, acts + [Take]).Inside?
    requires IsFirstClear(AllocatedRun(nbits, acts).pool.bits, nbits, w)
    ensures ClearSearchFits(AllocatedRun(nbits, acts).pool.bits, Window(nbits))
    ensures
      var p := AllocatedRun(nbits, acts).pool;
      FirstClear(p.bits, Window(nbits)) == w <==>
      (exists i :: 0 <= i < nbits && i !in p.held) || |p.held| == Window(nbits)
  {
    var len, n := BitstrSize(nbits), Window(nbits);
    assert (acts + [Take])[..|acts|] == acts;
    PoolInvariant(len, n, acts);
    AnswerIsLeastFree(len, n, acts);
    var p := AllocatedRun(nbits, acts).pool;
    FirstClearRightIff(p.bits, nbits, FirstClear(p.bits, n), w);
    assert forall i :: InArray(p.bits, i) ==> (BitAt(p.bits, i) <==> i in Members(p.bits));
    if i :| 0 <= i < nbits && i !in p.held {
      assert InArray(p.bits, i) && !BitAt(p.bits, i);
    }
  }

  // The same pool kept by a search that scans nbits bits, nbits a multiple of 8:
  // freebsd2's bit_ffc would stay inside exactly while fewer than nbits numbers are
  // out, and would then answer the same.
  lemma AlignedSearchIff(nbits: nat, acts: seq<Action>)
    requires nbits % 8 == 0
    ensures Run(BitstrSize(nbits), nbits, acts).Inside?
    ensures
      var p := Run(BitstrSize(nbits), nbits, acts).pool;
      && (ClearSearchFits(p.bits, Window(nbits)) <==> |p.held| < nbits)
      && (|p.held| < nbits ==> IsFirstClear(p.bits, Window(nbits), FirstClear(p.bits, nbits)))
  {
    assert 8 * BitstrSize(nbits) == nbits;
    RunLeavesIff(BitstrSize(nbits), nbits, acts);
    SearchFitsIff(BitstrSize(nbits), nbits, acts, Window(nbits));
    AnswerIsLeastFree(BitstrSize(nbits), nbits, acts);
  }

  // After nbits takes the numbers below nbits are out, and no other.
  lemma FullPoolBits(nbits: nat)
    ensures AllocatedRun(nbits, Takes(nbits)).Inside?
    ensures AllocatedRun(nbits, Takes(nbits)).pool.held == Numbers(nbits)
    ensures forall i :: InArray(AllocatedRun(nbits, Takes(nbits)).pool.bits, i) ==>
                          (BitAt(AllocatedRun(nbits, Takes(nbits)).pool.bits, i) <==> i < nbits)
  {
    var len, n := BitstrSize(nbits), Window(nbits);
    TakesCountUp(len, n, nbits);
    PoolInvariant(len, n, Takes(nbits));
    NumbersHold(nbits);
    var p := Run(len, n, Takes(nbits)).pool;
    forall i | InArray(p.bits, i)
      ensures BitAt(p.bits, i) <==> i < nbits
    {
      assert BitAt(p.bits, i) <==> i in Members(p.bits);
      assert i in Members(p.bits) <==> i in p.held;
    }
  }

  // The first time it goes wrong: -1 is the right answer, but the next take gets nbits
  // itself ...
  lemma FullPoolOverflows(nbits: nat)
    requires nbits % 8 != 0
    ensures AllocatedRun(nbits, Takes(nbits)).Inside?
    ensures IsFirstClear(AllocatedRun(nbits, Takes(nbits)).pool.bits, nbits, -1)
    ensures IsFirstClear(AllocatedRun(nbits, Takes(nbits)).pool.bits, Window(nbits), nbits)
  {
    FullPoolBits(nbits);
  }

  // ... or, for a multiple of 8, reads outside.
  lemma FullPoolReadsOutside(nbits: nat)
    requires nbits % 8 == 0
    ensures AllocatedRun(nbits, Takes(nbits)).Inside?
    ensures AllocatedRun(nbits, Takes(nbits) + [Take]).Outside?
  {
    FullPoolBits(nbits);
    NextTakeInsideIff(nbits, Takes(nbits));
  }

  // bit_ffs on such an array, when only numbers below nbits were ever set:
  // freebsd2's answer is right whenever the search stays inside.
  lemma UnusedBitsKeepFirstSetRight(s: seq<bv8>, nbits: nat, v: int)
    requires |s| == BitstrSize(nbits) && Members(s) <= Range(0, nbits - 1)
    requires IsFirstSet(s, Window(nbits), v)
    ensures IsFirstSet(s, nbits, v)
  {
    CutRepairsFirstSet(s, nbits, v);
    assert v != -1 ==> v in Members(s);
  }
}
