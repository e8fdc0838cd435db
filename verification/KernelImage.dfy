/** Patching a file system into a kernel image
    (freebsd2/release/write_mfs_in_kernel.c): find the signature, check that the
    space behind it is empty, copy.
 */
module KernelImage {

  // An unsigned char
  type Byte = x: int | 0 <= x < 256

  // "MFS Filesystem goes here"
  const SIGNATURE: seq<Byte> := [
    77, 70, 83, 32, 70, 105, 108, 101, 115, 121, 115, 116, 101, 109, 32,
    103, 111, 101, 115, 32, 104, 101, 114, 101]

  // Bytes of the signature with its terminating NUL
  const SIGNATURE_SIZE := 25

  // Offset of the superblock; freebsd2/sys/ufs/ffs/fs.h
  const SBOFF := 8192

  // How a run of the program ends
  datatype Outcome =
    | NotFound
    | Obstructed(bytes: int)
    | Written

  // ---------------------------------------------------------------- what is computed

  // The signature as a C string
  function SignatureByte(d: nat): Byte {
    if d < |SIGNATURE| then SIGNATURE[d] else 0
  }

  // The signature and its NUL stand at l.
  predicate SignatureAt(k: seq<Byte>, l: int) {
    && 0 <= l && l + SIGNATURE_SIZE <= |k|
    && forall d :: 0 <= d < SIGNATURE_SIZE ==> k[l + d] == SignatureByte(d)
  }

  // The same, by the characters the source spells: 24 of them and a NUL.
  ghost predicate SpellsSignature(k: seq<Byte>, l: int) {
    && 0 <= l && l + 25 <= |k|
    && (forall d :: 0 <= d < 24 ==> k[l + d] == "MFS Filesystem goes here"[d] as int)
    && k[l + 24] == 0
  }

  lemma SignatureLetters()
    ensures forall d :: 0 <= d < 24 ==> SignatureByte(d) == "MFS Filesystem goes here"[d] as int
    ensures SignatureByte(24) == 0
  {}

  lemma SignatureIsSpelled(k: seq<Byte>, l: int)
    ensures SignatureAt(k, l) <==> SpellsSignature(k, l)
  {
    SignatureLetters();
  }

  // Least l' in l ... limit - 1 where the signature stands, or -1
  function FindFrom(k: seq<Byte>, l: nat, limit: int): (r: int)
    ensures r == -1 || l <= r < limit
    decreases limit - l
  {
    if l >= limit then -1
    else if SignatureAt(k, l) then l
    else FindFrom(k, l + 1, limit)
  }

  // Where a file system of fsSize bytes goes in the image, or -1
  function Find(k: seq<Byte>, fsSize: nat): int {
    FindFrom(k, 0, |k| - fsSize)
  }

  lemma {:induction false} FindFromIsLeast(k: seq<Byte>, l: nat, limit: int)
    ensures
      var r := FindFrom(k, l, limit);
      && (r != -1 ==> l <= r < limit && SignatureAt(k, r))
      && (forall i :: l <= i < (if r == -1 then limit else r) ==> !SignatureAt(k, i))
    decreases limit - l
  {
    if l < limit && !SignatureAt(k, l) {
      FindFromIsLeast(k, l + 1, limit);
    }
  }

  lemma FindIsLeastMatch(k: seq<Byte>, n: nat, r: int)
    ensures Find(k, n) == r <==>
            if r == -1 then forall i :: 0 <= i < |k| - n ==> !SignatureAt(k, i)
            else 0 <= r < |k| - n && SignatureAt(k, r) && forall i :: 0 <= i < r ==> !SignatureAt(k, i)
  {
    FindFromIsLeast(k, 0, |k| - n);
  }

  // The search finds the first place the characters stand at and the file system
  // still ends before the image does, and nothing exactly when there is none.
  lemma FindIsLeast(k: seq<Byte>, n: nat, r: int)
    ensures Find(k, n) == r <==>
            if r == -1 then forall i :: 0 <= i < |k| - n ==> !SpellsSignature(k, i)
            else 0 <= r < |k| - n && SpellsSignature(k, r) && forall i :: 0 <= i < r ==> !SpellsSignature(k, i)
  {
    FindIsLeastMatch(k, n, r);
    forall i
      ensures SignatureAt(k, i) <==> SpellsSignature(k, i)
    {
      SignatureIsSpelled(k, i);
    }
  }

  predicate AllZero(bytes: seq<Byte>) {
    forall i :: 0 <= i < |bytes| ==> bytes[i] == 0
  }

  // Index of the first non-zero byte, or the length
  function FirstNonZero(bytes: seq<Byte>): (j: nat)
    ensures j <= |bytes|
    ensures AllZero(bytes[..j])
    ensures j < |bytes| ==> bytes[j] != 0
  {
    if bytes == [] || bytes[0] != 0 then 0
    else
      var j := FirstNonZero(bytes[1..]);
      assert bytes[..j + 1] == [bytes[0]] + bytes[1..][..j];
      j + 1
  }

  // The image with `data` written over it from `at` on
  function Overlay(k: seq<Byte>, at: nat, data: seq<Byte>): (t: seq<Byte>)
    requires at + |data| <= |k|
    ensures |t| == |k|
  {
    k[..at] + data + k[at + |data|..]
  }

  // Comparing the string at l with the signature ends inside the image: there is
  // room for all of it, or a byte that differs.
  ghost predicate StringFits(k: seq<Byte>, l: nat) {
    || l + SIGNATURE_SIZE <= |k|
    || exists d: nat :: l + d < |k| && k[l + d] != SignatureByte(d)
  }

  // Every comparison the search makes does.
  ghost predicate SearchFits(k: seq<Byte>, fsSize: nat) {
    forall l: nat :: l < |k| - fsSize && (Find(k, fsSize) == -1 || l <= Find(k, fsSize)) ==> StringFits(k, l)
  }

  // What C asks for: the search stays inside the image, and the length copied, the
  // file system's from the superblock on, is not negative.
  ghost predicate Patchable(k: seq<Byte>, fs: seq<Byte>) {
    SearchFits(k, |fs|) && (Find(k, |fs|) != -1 ==> SBOFF <= |fs|)
  }

  // The check and the copy, with the place found at l
  function CopyAt(k: seq<Byte>, fs: seq<Byte>, force: bool, l: nat): (res: (seq<Byte>, Outcome))
    requires SBOFF <= |fs| && l + |fs| <= |k|
    ensures |res.0| == |k|
  {
    var target := k[l + SBOFF..l + |fs|];
    if !force && !AllZero(target) then (k, Obstructed(SBOFF + FirstNonZero(target)))
    else (Overlay(k, l + SBOFF, fs[SBOFF..]), Written)
  }

  function Patch(k: seq<Byte>, fs: seq<Byte>, force: bool): (res: (seq<Byte>, Outcome))
    requires Patchable(k, fs)
    ensures |res.0| == |k|
  {
    var l := Find(k, |fs|);
    if l == -1 then (k, NotFound) else CopyAt(k, fs, force, l)
  }

  // The part of the image the file system is copied over
  function Target(k: seq<Byte>, fs: seq<Byte>): seq<Byte>
    requires Patchable(k, fs) && Find(k, |fs|) != -1
  {
    k[Find(k, |fs|) + SBOFF..Find(k, |fs|) + |fs|]
  }

  // ---------------------------------------------------------------- the program

  // strcmp(p, signature) == 0, byte by byte up to the first difference or NUL
  // (section 7.21.4.2 of ISO/IEC 9899:1999)
  method SameString(k: array<Byte>, l: nat) returns (same: bool)
    requires l < k.Length && StringFits(k[..], l)
    ensures same <==> SignatureAt(k[..], l)
  {
    var i := 0;
    while k[l + i] == SignatureByte(i) && SignatureByte(i) != 0
      invariant 0 <= i < SIGNATURE_SIZE && l + i < k.Length
      invariant forall d :: 0 <= d < i ==> k[l + d] == SignatureByte(d)
      decreases SIGNATURE_SIZE - i
    {
      i := i + 1;
    }
    same := k[l + i] == SignatureByte(i);
  }

  // The search loop.  The test of *p comes before the comparison.
  method Search(k: array<Byte>, fsSize: nat) returns (found: bool, l: nat)
    requires SearchFits(k[..], fsSize)
    ensures if found then l == Find(k[..], fsSize) else Find(k[..], fsSize) == -1
    ensures found ==> l < k.Length - fsSize && SpellsSignature(k[..], l)
    ensures forall i :: 0 <= i < (if found then l else k.Length - fsSize) ==> !SpellsSignature(k[..], i)
  {
    FindIsLeast(k[..], fsSize, Find(k[..], fsSize));
    l := 0;
    while l < k.Length - fsSize
      invariant FindFrom(k[..], l, k.Length - fsSize) == Find(k[..], fsSize)
    {
      if k[l] == 77 {
        var same := SameString(k, l);
        if same {
          return true, l;
        }
      } else {
        assert SignatureByte(0) == 77;
      }
      l := l + 1;
    }
    found := false;
  }

  lemma {:induction false} FirstNonZeroIs(bytes: seq<Byte>, j: nat)
    requires j <= |bytes| && AllZero(bytes[..j]) && (j < |bytes| ==> bytes[j] != 0)
    ensures FirstNonZero(bytes) == j
    ensures AllZero(bytes) <==> j == |bytes|
  {
    if j > 0 {
      assert bytes[..j][0] == bytes[0];
      assert bytes[1..][..j - 1] == bytes[..j][1..];
      FirstNonZeroIs(bytes[1..], j - 1);
      assert bytes == [bytes[0]] + bytes[1..];
    }
  }

  // The check before the copy: how many bytes from `at` on are zero, up to n
  method CountZeros(k: array<Byte>, at: nat, n: nat) returns (l: nat)
    requires at + n <= k.Length
    ensures l <= n && forall i :: at <= i < at + l ==> k[i] == 0
    ensures l < n ==> k[at + l] != 0
  {
    l := 0;
    while l < n
      invariant l <= n
      invariant forall i :: at <= i < at + l ==> k[i] == 0
    {
      if k[at + l] != 0 {
        break;
      }
      l := l + 1;
    }
  }

  // memcpy(dst + at, src + from, n)
  method Memcpy(dst: array<Byte>, at: nat, src: array<Byte>, from: nat, n: nat)
    requires dst != src && at + n <= dst.Length && from + n <= src.Length
    modifies dst
    ensures dst[..] == Overlay(old(dst[..]), at, src[from..from + n])
  {
    var i := 0;
    while i < n
      invariant i <= n
      invariant forall j :: 0 <= j < dst.Length ==>
                  dst[j] == if at <= j < at + i then src[from + (j - at)] else old(dst[j])
    {
      dst[at + i] := src[from + i];
      i := i + 1;
    }
  }

  lemma CopyRefused(k: seq<Byte>, fs: seq<Byte>, p: nat, l: nat)
    requires SBOFF + l < |fs| && p + |fs| <= |k|
    requires (forall i :: p + SBOFF <= i < p + SBOFF + l ==> k[i] == 0) && k[p + SBOFF + l] != 0
    ensures CopyAt(k, fs, false, p) == (k, Obstructed(l + SBOFF))
  {
    FirstNonZeroIs(k[p + SBOFF..p + |fs|], l);
  }

  lemma CopyMade(k: seq<Byte>, fs: seq<Byte>, force: bool, p: nat)
    requires SBOFF <= |fs| && p + |fs| <= |k|
    requires force || forall i :: p + SBOFF <= i < p + |fs| ==> k[i] == 0
    ensures CopyAt(k, fs, force, p) == (Overlay(k, p + SBOFF, fs[SBOFF..]), Written)
  {}

  // The check, unless forced, and the copy
  method CheckAndCopy(kernel: array<Byte>, fs: array<Byte>, force: bool, p: nat) returns (o: Outcome)
    requires kernel != fs && SBOFF <= fs.Length && p + fs.Length <= kernel.Length
    modifies kernel
    ensures (kernel[..], o) == CopyAt(old(kernel[..]), fs[..], force, p)
  {
    var n := fs.Length - SBOFF;
    if !force {
      var l := CountZeros(kernel, p + SBOFF, n);
      if l < n {
        CopyRefused(kernel[..], fs[..], p, l);
        return Obstructed(l + SBOFF);
      }
    }
    CopyMade(kernel[..], fs[..], force, p);
    Memcpy(kernel, p + SBOFF, fs, SBOFF, n);
    assert fs[SBOFF..SBOFF + n] == fs[..][SBOFF..];
    o := Written;
  }

  // main, from the search to the copy, on the two files read into memory
  method PatchKernel(kernel: array<Byte>, fs: array<Byte>, force: bool) returns (o: Outcome)
    requires kernel != fs && Patchable(kernel[..], fs[..])
    modifies kernel
    ensures (kernel[..], o) == Patch(old(kernel[..]), fs[..], force)
    ensures
      var l := Find(old(kernel[..]), fs.Length);
      forall i :: 0 <= i < kernel.Length ==>
        kernel[i] == if o == Written && l + 8192 <= i < l + fs.Length then fs[i - l] else old(kernel[i])
  {
    var found, p := Search(kernel, fs.Length);
    if found {
      o := CheckAndCopy(kernel, fs, force, p);
    } else {
      o := NotFound;
    }
    PatchFrame(old(kernel[..]), fs[..], force);
  }

  // Exactly the file system from the superblock, byte 8192, on is written, at its
  // place.
  lemma PatchFrame(k: seq<Byte>, fs: seq<Byte>, force: bool)
    requires Patchable(k, fs)
    ensures
      var (t, o) := Patch(k, fs, force);
      var l := Find(k, |fs|);
      forall i :: 0 <= i < |k| ==>
        t[i] == if o == Written && l + 8192 <= i < l + |fs| then fs[i - l] else k[i]
  {}
}
