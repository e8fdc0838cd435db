/** What patching does over several runs: the place never moves, the last writer
    wins, unforced runs lose nothing, and a patch can be undone.
 */
module PatchRuns {
  import opened KernelImage

  // "MFS Filesystem had better STOP here", which the kernel keeps right behind the
  // space for the file system; freebsd2/sys/ufs/mfs/mfs_vfsops.c
  const STOP_MARKER: seq<Byte> := [
    77, 70, 83, 32, 70, 105, 108, 101, 115, 121, 115, 116, 101, 109, 32,
    104, 97, 100, 32, 98, 101, 116, 116, 101, 114, 32, 83, 84, 79, 80, 32, 104, 101, 114, 101, 0]

  // ---------------------------------------------------------------- the search

  lemma SignatureBytes(k: seq<Byte>, l: int, d: nat)
    requires SignatureAt(k, l) && d < SIGNATURE_SIZE
    ensures k[l + d] == 77 <==> d == 0
  {
    assert k[l + d] == SignatureByte(d);
  }

  // 'M' stands only at its head, so two signatures never overlap.
  lemma SignaturesApart(k: seq<Byte>, l: int, l': int)
    requires SignatureAt(k, l) && SignatureAt(k, l') && l < l'
    ensures l + SIGNATURE_SIZE <= l'
  {
    SignatureBytes(k, l', 0);
    if l' < l + SIGNATURE_SIZE {
      SignatureBytes(k, l, l' - l);
    }
  }

  // Image t differs from k only from byte `at` on.
  ghost predicate SameBefore(k: seq<Byte>, t: seq<Byte>, at: int) {
    |t| == |k| && forall i :: 0 <= i < at && i < |k| ==> t[i] == k[i]
  }

  lemma SameSignature(k: seq<Byte>, t: seq<Byte>, at: int, l: int)
    requires SameBefore(k, t, at) && l + SIGNATURE_SIZE <= at
    ensures SignatureAt(t, l) <==> SignatureAt(k, l)
  {}

  // The search can leave the image only for a file system shorter than the signature
  // and an image without one.
  lemma SearchFitsWhen(k: seq<Byte>, n: nat, l: nat)
    requires n >= SIGNATURE_SIZE || SignatureAt(k, l)
    ensures SearchFits(k, n)
  {
    var r := Find(k, n);
    FindIsLeastMatch(k, n, r);
    forall i: nat | i < |k| - n && (r == -1 || i <= r)
      ensures StringFits(k, i)
    {}
  }

  // Any file system that reaches the superblock may be patched in; a shorter one may
  // be tried when there is no place for it.
  lemma PatchableIff(k: seq<Byte>, fs: seq<Byte>)
    ensures Patchable(k, fs) <==> |fs| >= 8192 || (Find(k, |fs|) == -1 && SearchFits(k, |fs|))
  {
    if |fs| >= 8192 {
      SearchFitsWhen(k, |fs|, 0);
    }
  }

  // Every search of t, for a file system of any size, goes as that of k.
  ghost predicate SameSearches(k: seq<Byte>, t: seq<Byte>) {
    && |t| == |k|
    && forall n: nat :: Find(t, n) == Find(k, n) && (SearchFits(t, n) <==> SearchFits(k, n))
  }

  // Nothing before the end of the first signature changed: every search still goes
  // as it did.
  lemma SameFind(k: seq<Byte>, t: seq<Byte>, l: nat, n: nat)
    requires SignatureAt(k, l) && forall i :: 0 <= i < l ==> !SignatureAt(k, i)
    requires SameBefore(k, t, l + SIGNATURE_SIZE)
    ensures Find(t, n) == Find(k, n) && SearchFits(t, n) && SearchFits(k, n)
  {
    forall i | 0 <= i <= l
      ensures SignatureAt(t, i) <==> SignatureAt(k, i)
    {
      SameSignature(k, t, l + SIGNATURE_SIZE, i);
    }
    FindIsLeastMatch(k, n, Find(k, n));
    FindIsLeastMatch(t, n, Find(k, n));
    SearchFitsWhen(k, n, l);
    SearchFitsWhen(t, n, l);
  }

  // ---------------------------------------------------------------- one run

  // How the check and the copy end, at place l
  lemma CopyOutcome(k: seq<Byte>, fs: seq<Byte>, force: bool, l: nat)
    requires SBOFF <= |fs| && l + |fs| <= |k|
    ensures
      var (t, o) := CopyAt(k, fs, force, l);
      match o
      case NotFound => false
      case Obstructed(b) =>
        && t == k && !force && 8192 <= b < |fs|
        && k[l + b] != 0 && forall i :: l + 8192 <= i < l + b ==> k[i] == 0
      case Written => force || forall i :: l + 8192 <= i < l + |fs| ==> k[i] == 0
  {
    var target := k[l + SBOFF..l + |fs|];
    var j := FirstNonZero(target);
    FirstNonZeroIs(target, j);
    assert forall i :: l + SBOFF <= i < l + |fs| ==> k[i] == target[i - (l + SBOFF)];
    assert forall i :: 0 <= i < j ==> target[i] == target[..j][i];
  }

  // How the run ends
  lemma PatchOutcome(k: seq<Byte>, fs: seq<Byte>, force: bool)
    requires Patchable(k, fs)
    ensures
      var (t, o) := Patch(k, fs, force);
      var l := Find(k, |fs|);
      match o
      case NotFound => t == k && l == -1
      case Obstructed(b) =>
        && t == k && !force && l != -1 && 8192 <= b < |fs|
        && k[l + b] != 0 && forall i :: l + 8192 <= i < l + b ==> k[i] == 0
      case Written => l != -1 && (force || forall i :: l + 8192 <= i < l + |fs| ==> k[i] == 0)
  {
    var l := Find(k, |fs|);
    if l != -1 {
      CopyOutcome(k, fs, force, l);
    }
  }

  lemma PatchKeepsSearches(k: seq<Byte>, fs: seq<Byte>, force: bool)
    requires Patchable(k, fs)
    ensures SameSearches(k, Patch(k, fs, force).0)
  {
    var (t, o) := Patch(k, fs, force);
    var l := Find(k, |fs|);
    if o == Written {
      FindIsLeastMatch(k, |fs|, l);
      forall n: nat
        ensures Find(t, n) == Find(k, n) && SearchFits(t, n) && SearchFits(k, n)
      {
        SameFind(k, t, l, n);
      }
    }
  }

  // ---------------------------------------------------------------- two runs

  lemma SamePlace(k: seq<Byte>, m: nat, n: nat)
    requires Find(k, m) != -1 && Find(k, n) != -1
    ensures Find(k, m) == Find(k, n)
  {
    FindIsLeastMatch(k, m, Find(k, m));
    FindIsLeastMatch(k, n, Find(k, n));
  }

  // Byte i after a forced patch that found its place at l
  lemma ForcedByte(k: seq<Byte>, fs: seq<Byte>, l: nat, i: nat)
    requires Patchable(k, fs) && Find(k, |fs|) == l && i < |k|
    ensures Patch(k, fs, true).1 == Written
    ensures Patch(k, fs, true).0[i] == if l + SBOFF <= i < l + |fs| then fs[i - l] else k[i]
  {}

  // Image `once` is k with fs1 forced in at l; `twice` and `direct` are `once` and k
  // with the same bytes written from SBOFF to n.  They are equal exactly when what
  // fs1 has behind that was there before.
  lemma TailsDecide(k: seq<Byte>, fs1: seq<Byte>, once: seq<Byte>, twice: seq<Byte>, direct: seq<Byte>,
                    l: nat, n: nat)
    requires SBOFF <= n && SBOFF <= |fs1| && l + |fs1| <= |k| == |once| == |twice| == |direct|
    requires forall i :: 0 <= i < |k| && !(l + SBOFF <= i < l + n) ==> twice[i] == once[i] && direct[i] == k[i]
    requires forall i :: l + SBOFF <= i < l + n && i < |k| ==> twice[i] == direct[i]
    requires forall i :: 0 <= i < |k| ==> once[i] == if l + SBOFF <= i < l + |fs1| then fs1[i - l] else k[i]
    ensures twice == direct <==> |fs1| <= n || fs1[n..] == k[l + n..l + |fs1|]
  {
    if n < |fs1| && twice == direct {
      forall j | 0 <= j < |fs1| - n
        ensures fs1[n..][j] == k[l + n..l + |fs1|][j]
      {
        assert twice[l + n + j] == direct[l + n + j];
      }
    }
    if |fs1| <= n || fs1[n..] == k[l + n..l + |fs1|] {
      forall i | 0 <= i < |k|
        ensures twice[i] == direct[i]
      {
        if l + n <= i < l + |fs1| {
          assert fs1[n..][i - l - n] == k[l + n..l + |fs1|][i - l - n];
        }
      }
    }
  }

  // Where the second file system ends, as far as the second patch writes
  function WrittenUpTo(k: seq<Byte>, fs: seq<Byte>): nat {
    if Find(k, |fs|) == -1 then SBOFF else |fs|
  }

  // Forcing fs2 in over fs1 is forcing fs2 into the original, exactly when fs1 found
  // no place, fs2 is written at least as far, or what fs1 has more was there before.
  lemma ForcedRepatch(k: seq<Byte>, fs1: seq<Byte>, fs2: seq<Byte>)
    requires Patchable(k, fs1) && Patchable(k, fs2)
    ensures Patchable(Patch(k, fs1, true).0, fs2)
    ensures
      var l, n := Find(k, |fs1|), WrittenUpTo(k, fs2);
      Patch(Patch(k, fs1, true).0, fs2, true) == Patch(k, fs2, true) <==>
      l == -1 || |fs1| <= n || fs1[n..] == k[l + n..l + |fs1|]
  {
    var l, n := Find(k, |fs1|), WrittenUpTo(k, fs2);
    PatchKeepsSearches(k, fs1, true);
    if l != -1 {
      var once := Patch(k, fs1, true).0;
      var twice, direct := Patch(once, fs2, true), Patch(k, fs2, true);
      assert Find(once, |fs2|) == Find(k, |fs2|);
      forall i: nat | i < |k|
        ensures once[i] == if l + SBOFF <= i < l + |fs1| then fs1[i - l] else k[i]
      {
        ForcedByte(k, fs1, l, i);
      }
      if Find(k, |fs2|) != -1 {
        SamePlace(k, |fs1|, |fs2|);
        forall i: nat | i < |k|
          ensures if l + SBOFF <= i < l + |fs2| then twice.0[i] == direct.0[i]
                  else twice.0[i] == once[i] && direct.0[i] == k[i]
        {
          ForcedByte(once, fs2, l, i);
          ForcedByte(k, fs2, l, i);
        }
      }
      assert twice.1 == direct.1;
      TailsDecide(k, fs1, once, twice.0, direct.0, l, n);
    }
  }

  function Zeros(n: nat): (z: seq<Byte>)
    ensures |z| == n && forall i :: 0 <= i < n ==> z[i] == 0
  {
    seq(n, _ => 0)
  }

  // An image of `size` bytes, the signature at its head, zero elsewhere
  function EmptyImage(size: nat): (k: seq<Byte>)
    requires SIGNATURE_SIZE <= size
    ensures |k| == size
  {
    SIGNATURE + Zeros(size - |SIGNATURE|)
  }

  lemma EmptyImageHolds(size: nat, behind: seq<Byte>, n: nat)
    requires SIGNATURE_SIZE <= size && n < size + |behind|
    ensures Find(EmptyImage(size) + behind, n) == 0 && SearchFits(EmptyImage(size) + behind, n)
  {
    var k := EmptyImage(size) + behind;
    assert SignatureAt(k, 0);
    FindIsLeastMatch(k, n, 0);
    SearchFitsWhen(k, n, 0);
  }

  // A file system one byte shorter leaves the last byte of the longer one.
  lemma ForcedRepatchLeavesTail()
    ensures
      var k, fs1, fs2 := EmptyImage(SBOFF + 24), Zeros(SBOFF) + [1, 1], Zeros(SBOFF) + [1];
      && Patchable(k, fs1) && Patchable(k, fs2)
      && Patchable(Patch(k, fs1, true).0, fs2)
      && Patch(Patch(k, fs1, true).0, fs2, true) != Patch(k, fs2, true)
  {
    var k, fs1, fs2 := EmptyImage(SBOFF + 24), Zeros(SBOFF) + [1, 1], Zeros(SBOFF) + [1];
    assert k + [] == k;
    EmptyImageHolds(SBOFF + 24, [], |fs1|);
    EmptyImageHolds(SBOFF + 24, [], |fs2|);
    ForcedRepatch(k, fs1, fs2);
    assert fs1[|fs2|..][0] == 1 && k[|fs2|..|fs1|][0] == 0;
  }

  lemma ForcedIdempotent(k: seq<Byte>, fs: seq<Byte>)
    requires Patchable(k, fs)
    ensures Patchable(Patch(k, fs, true).0, fs)
    ensures Patch(Patch(k, fs, true).0, fs, true) == Patch(k, fs, true)
  {
    ForcedRepatch(k, fs, fs);
  }

  lemma OverlayTwice(k: seq<Byte>, at: nat, a: seq<Byte>, b: seq<Byte>)
    requires |a| == |b| && at + |a| <= |k|
    ensures Overlay(Overlay(k, at, a), at, b) == Overlay(k, at, b)
    ensures Overlay(k, at, a)[at..at + |a|] == a
  {
    var t := Overlay(k, at, a);
    assert t[..at] == k[..at] && t[at + |a|..] == k[at + |a|..];
  }

  lemma OverlaySame(k: seq<Byte>, at: nat, n: nat)
    requires at + n <= |k|
    ensures Overlay(k, at, k[at..at + n]) == k
  {}

  // An unforced patch that was written is undone by zeroing what it wrote.
  lemma UnforcedIsReversible(k: seq<Byte>, fs: seq<Byte>)
    requires Patchable(k, fs) && Patch(k, fs, false).1 == Written
    ensures Overlay(Patch(k, fs, false).0, Find(k, |fs|) + SBOFF, Zeros(|fs| - SBOFF)) == k
  {
    var at, n := Find(k, |fs|) + SBOFF, |fs| - SBOFF;
    assert Target(k, fs) == Zeros(n);
    OverlayTwice(k, at, fs[SBOFF..], Zeros(n));
    OverlaySame(k, at, n);
  }

  // A second unforced run is refused at the first non-zero byte the first one
  // wrote, and goes through exactly when it wrote none.
  lemma UnforcedTwice(k: seq<Byte>, fs: seq<Byte>)
    requires Patchable(k, fs) && Patch(k, fs, false).1 == Written
    ensures Patchable(Patch(k, fs, false).0, fs)
    ensures
      var t := Patch(k, fs, false).0;
      Patch(t, fs, false) ==
      (t, if AllZero(fs[SBOFF..]) then Written else Obstructed(SBOFF + FirstNonZero(fs[SBOFF..])))
  {
    var t, l := Patch(k, fs, false).0, Find(k, |fs|);
    PatchKeepsSearches(k, fs, false);
    assert Find(t, |fs|) == l;
    OverlayTwice(k, l + SBOFF, fs[SBOFF..], fs[SBOFF..]);
    assert Target(t, fs) == fs[SBOFF..];
  }

  // ---------------------------------------------------------------- the kernel's layout

  // Space for `size` bytes of file system stands at l, with the stop marker behind.
  ghost predicate LaidOut(k: seq<Byte>, l: nat, size: nat) {
    && SBOFF <= size
    && l + size + |STOP_MARKER| <= |k|
    && k[l + size..l + size + |STOP_MARKER|] == STOP_MARKER
  }

  lemma StopMarkerLetters()
    ensures |STOP_MARKER| == 36 && STOP_MARKER[35] == 0
    ensures forall d :: 0 <= d < 35 ==> STOP_MARKER[d] == "MFS Filesystem had better STOP here"[d] as int
  {}

  // The layout by the characters the kernel's source spells
  lemma LayoutIsSpelled(k: seq<Byte>, l: nat, size: nat)
    ensures LaidOut(k, l, size) <==>
            && 8192 <= size && l + size + 36 <= |k|
            && (forall d :: 0 <= d < 35 ==> k[l + size + d] == "MFS Filesystem had better STOP here"[d] as int)
            && k[l + size + 35] == 0
  {
    StopMarkerLetters();
    if l + size + 36 <= |k| {
      var m := k[l + size..l + size + 36];
      assert forall d :: 0 <= d < 36 ==> m[d] == k[l + size + d];
      assert m == STOP_MARKER <==> forall d :: 0 <= d < 36 ==> m[d] == STOP_MARKER[d];
    }
  }

  // Unforced, the stop marker survives any file system, and one too large for the
  // space is refused by the marker at the latest: exactly there when the space
  // is still empty.
  lemma StopMarkerStops(k: seq<Byte>, l: nat, size: nat, fs: seq<Byte>)
    requires Patchable(k, fs) && Find(k, |fs|) == l && LaidOut(k, l, size)
    ensures LaidOut(Patch(k, fs, false).0, l, size)
    ensures |fs| > size ==>
              var o := Patch(k, fs, false).1;
              && o.Obstructed? && o.bytes <= size
              && (o.bytes == size <==> forall i :: l + SBOFF <= i < l + size ==> k[i] == 0)
  {
    PatchOutcome(k, fs, false);
    var (t, o) := Patch(k, fs, false);
    assert k[l + size..l + size + |STOP_MARKER|][0] == k[l + size] == 77;
    if o == Written {
      assert |fs| <= size;
      assert t[l + size..l + size + |STOP_MARKER|] == k[l + size..l + size + |STOP_MARKER|];
    }
  }

  // Forced, it survives exactly when the file system fits, or holds the same bytes
  // as far as it reaches over the marker.
  lemma ForcedStopMarker(k: seq<Byte>, l: nat, size: nat, fs: seq<Byte>)
    requires Patchable(k, fs) && Find(k, |fs|) == l && LaidOut(k, l, size)
    ensures
      var over := if |fs| < size + |STOP_MARKER| then |fs| - size else |STOP_MARKER|;
      LaidOut(Patch(k, fs, true).0, l, size) <==>
      over <= 0 || fs[size..size + over] == STOP_MARKER[..over]
  {
    var t := Patch(k, fs, true).0;
    var was, now := k[l + size..l + size + |STOP_MARKER|], t[l + size..l + size + |STOP_MARKER|];
    forall d | 0 <= d < |was|
      ensures now[d] == if size + d < |fs| then fs[size + d] else was[d]
    {
      ForcedByte(k, fs, l, l + size + d);
    }
    PartlyOverwritten(was, now, fs, size);
  }

  // One byte too many, and the marker's first byte is gone.
  lemma ForcedOverwritesMarker()
    ensures
      var k, fs := EmptyImage(SBOFF) + STOP_MARKER, Zeros(SBOFF) + [1];
      && LaidOut(k, 0, SBOFF) && Patchable(k, fs) && Find(k, |fs|) == 0
      && !LaidOut(Patch(k, fs, true).0, 0, SBOFF)
  {
    var k, fs := EmptyImage(SBOFF) + STOP_MARKER, Zeros(SBOFF) + [1];
    EmptyImageHolds(SBOFF, STOP_MARKER, |fs|);
    assert k[0 + SBOFF..0 + SBOFF + |STOP_MARKER|] == STOP_MARKER;
    ForcedStopMarker(k, 0, SBOFF, fs);
    var head, marked := fs[SBOFF..SBOFF + 1], STOP_MARKER[..1];
    assert head[0] == fs[SBOFF] == 1 && marked[0] == STOP_MARKER[0] == 77;
  }

  // A string whose head was overwritten is still there if and only if the head was
  // overwritten with itself.
  lemma PartlyOverwritten(was: seq<Byte>, now: seq<Byte>, fs: seq<Byte>, size: nat)
    requires |now| == |was|
    requires forall d :: 0 <= d < |was| ==> now[d] == if size + d < |fs| then fs[size + d] else was[d]
    ensures
      var over := if |fs| < size + |was| then |fs| - size else |was|;
      now == was <==> over <= 0 || fs[size..size + over] == was[..over]
  {
    var over := if |fs| < size + |was| then |fs| - size else |was|;
    if over > 0 {
      var head := fs[size..size + over];
      assert |head| == over && forall d :: 0 <= d < over ==> head[d] == now[d];
      assert head == now[..over];
      assert now[over..] == was[over..];
      assert now == now[..over] + now[over..] && was == was[..over] + was[over..];
    }
  }

  // ---------------------------------------------------------------- any number of runs

  datatype Command = Command(fs: seq<Byte>, force: bool)

  ghost predicate AllPatchable(k: seq<Byte>, cmds: seq<Command>) {
    forall j :: 0 <= j < |cmds| ==> Patchable(k, cmds[j].fs)
  }

  // The image after the first m runs
  ghost function Image(k: seq<Byte>, cmds: seq<Command>, m: nat): (t: seq<Byte>)
    requires AllPatchable(k, cmds) && m <= |cmds|
    ensures SameSearches(k, t)
  {
    if m == 0 then k
    else
      var before, c := Image(k, cmds, m - 1), cmds[m - 1];
      PatchKeepsSearches(before, c.fs, c.force);
      Patch(before, c.fs, c.force).0
  }

  // How run j ended
  ghost function Ending(k: seq<Byte>, cmds: seq<Command>, j: nat): Outcome
    requires AllPatchable(k, cmds) && j < |cmds|
  {
    Patch(Image(k, cmds, j), cmds[j].fs, cmds[j].force).1
  }

  // The copy of fs covers byte i.
  predicate Covers(k: seq<Byte>, fs: seq<Byte>, i: int) {
    Find(k, |fs|) + SBOFF <= i < Find(k, |fs|) + |fs|
  }

  function CopiedByte(k: seq<Byte>, fs: seq<Byte>, i: int): Byte
    requires Covers(k, fs, i)
  {
    fs[i - Find(k, |fs|)]
  }

  // Run j wrote byte i.
  ghost predicate Wrote(k: seq<Byte>, cmds: seq<Command>, j: int, i: int)
    requires AllPatchable(k, cmds)
  {
    0 <= j < |cmds| && Ending(k, cmds, j) == Written && Covers(k, cmds[j].fs, i)
  }

  // Of the first m runs j is the last that wrote byte i, or -1 if none did.
  ghost predicate LastWriter(k: seq<Byte>, cmds: seq<Command>, m: nat, j: int, i: int)
    requires AllPatchable(k, cmds)
  {
    && -1 <= j < m
    && (j == -1 || Wrote(k, cmds, j, i))
    && forall j' :: j < j' < m ==> !Wrote(k, cmds, j', i)
  }

  // One run changes exactly the bytes it wrote.
  lemma OneRun(k: seq<Byte>, before: seq<Byte>, c: Command, i: nat)
    requires SameSearches(k, before) && Patchable(k, c.fs) && i < |k|
    ensures Patchable(before, c.fs)
    ensures
      var (t, o) := Patch(before, c.fs, c.force);
      t[i] == if o == Written && Covers(k, c.fs, i) then CopiedByte(k, c.fs, i) else before[i]
  {
    assert Find(before, |c.fs|) == Find(k, |c.fs|);
    PatchFrame(before, c.fs, c.force);
  }

  lemma LastRun(k: seq<Byte>, cmds: seq<Command>, m: nat, i: nat)
    requires AllPatchable(k, cmds) && m < |cmds| && i < |k|
    ensures Image(k, cmds, m + 1)[i] ==
            if Wrote(k, cmds, m, i) then CopiedByte(k, cmds[m].fs, i) else Image(k, cmds, m)[i]
  {
    OneRun(k, Image(k, cmds, m), cmds[m], i);
  }

  // After any runs, forced or not, each byte of the image is the one the last run
  // that wrote it put there, or the kernel's own.
  lemma {:induction false} LastWriterWins(k: seq<Byte>, cmds: seq<Command>, m: nat, j: int, i: nat)
    requires AllPatchable(k, cmds) && m <= |cmds| && i < |k|
    requires LastWriter(k, cmds, m, j, i)
    ensures Image(k, cmds, m)[i] == if j == -1 then k[i] else CopiedByte(k, cmds[j].fs, i)
  {
    if m == 0 {
      assert j == -1;
    } else {
      var n := m - 1;
      LastRun(k, cmds, n, i);
      if j == n {
        assert Wrote(k, cmds, n, i);
      } else {
        assert !Wrote(k, cmds, n, i);
        assert Image(k, cmds, m)[i] == Image(k, cmds, n)[i];
        LastWriterWins(k, cmds, n, j, i);
      }
    }
  }

  // However many unforced runs are made, no byte that was not zero changes.
  lemma {:induction false} UnforcedLosesNothing(k: seq<Byte>, cmds: seq<Command>, m: nat, i: nat)
    requires AllPatchable(k, cmds) && m <= |cmds| && i < |k|
    requires forall j :: 0 <= j < m ==> !cmds[j].force
    ensures k[i] != 0 ==> Image(k, cmds, m)[i] == k[i]
  {
    if m > 0 {
      UnforcedLosesNothing(k, cmds, m - 1, i);
      PatchFrame(Image(k, cmds, m - 1), cmds[m - 1].fs, false);
      PatchOutcome(Image(k, cmds, m - 1), cmds[m - 1].fs, false);
    }
  }
}
