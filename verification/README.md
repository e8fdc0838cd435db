# Bit strings, stdio fast paths and the kernel image patcher

A Dafny model of the three pieces of this tree whose behaviour is decided by
code in place rather than by declarations:

- **Bit strings** (`freebsd2/include/bitstring.h`). A set of numbers kept in a byte
  array: single bits, ranges set and cleared with hand-built edge masks, first clear
  and first set bit. The tree holds two more generations of the same macros. The
  ones in `netbsd/include/bitstring.h` go bit by bit and serve as the reference the
  masks are compared with; the ones in `freebsd5/include/bitstring.h` correct the
  searches.
- **stdio** (`freebsd2/include/stdio.h`). `__sgetc`, the inline `__sputc` and the macro
  `__sputc` on the stream's position, counters and buffer, over whole runs up to the
  first call that leaves the fast path.
- **The kernel image patcher** (`freebsd2/release/write_mfs_in_kernel.c`). Search for the
  signature, check for an obstruction, copy; then any number of such runs.

Each macro or loop that updates memory is a method over an `array` or a class; its
contract equates the new state with a function of the old one, and the lemmas are
about those functions.

| file | contents |
|---|---|
| `ByteMasks.dfy` | one byte: masks at C int width (`bv32`), stores truncated to `bv8` |
| `BitString.dfy` | the array as a set; the macros of freebsd2 that read and write bits |
| `BitLoops.dfy` | the range loops of netbsd, and when the masks agree with them |
| `BitSearch.dfy` | the searches of all three generations, and when they agree |
| `BitRuns.dfy` | whole runs, range algebra, counting |
| `FirstFit.dfy` | a bit string used as a pool of numbers |
| `Stdio.dfy`, `StdioRuns.dfy` | one call; whole runs |
| `KernelImage.dfy`, `PatchRuns.dfy` | one run of the patcher; several runs |

## What does not hold

Where the code does less than its comments say, the model keeps the code and the
lemmas say exactly when it does what is promised.

- `bit_nset` and `bit_nclear` on an empty range (stop below start) touch bits they should
  not when start lies in a later byte than stop, and only then
  (`BitString.TouchedIsRange`, `BitLoops.NSetAgreesWithLoop`, `BitLoops.NClearAgreesWithLoop`;
  with inputs in `BitLoops.NSetOutOfOrder` and `BitLoops.NClearOutOfOrder`). The commonest
  empty range, 0 ... -1, is the worst: the loops of netbsd do nothing on it, but the masks
  index byte -1, so it is outside what the methods here accept.
  In order the two agree, although the comment at
  `netbsd/include/bitstring.h:44-51` says the mask versions did not work.
- `bit_ffc` and `bit_ffs` of freebsd2 scan through the byte that holds bit number nbits.
  They may answer a number that is not below nbits (`BitSearch.FirstClearRightIff`,
  `BitSearch.FirstSetRightIff`; with inputs in `FirstFit.FullPoolOverflows` and
  `BitSearch.FirstSetWrong`), and on an array from `bit_alloc` they read past its end
  exactly when nbits is a multiple of 8 and the bit looked for is not there
  (`BitSearch.AllocatedSearchFits`, and for every run of takes and releases
  `FirstFit.NextTakeInsideIff`; with inputs in `FirstFit.FullPoolReadsOutside` and
  `BitSearch.FirstSetReadsOutside`). The cut made in freebsd5 repairs every answer
  (`BitSearch.CutRepairsFirstClear`, `BitSearch.CutRepairsFirstSet`).
- The two forms of `__sputc` hand different ints to `__swbuf` exactly when the first
  character that is not put fast is a newline only after conversion to a character, line
  buffered and with room left (`StdioRuns.SameIntHandedOverIff`; with an input in
  `StdioRuns.FormsHandOverDifferently`).
- Forced patching does not forget the file system it replaces when the new one is shorter
  or finds no place (`PatchRuns.ForcedRepatch`; with an input in
  `PatchRuns.ForcedRepatchLeavesTail`), and it overwrites the stop marker when the file
  system does not fit (`PatchRuns.ForcedStopMarker`; with an input in
  `PatchRuns.ForcedOverwritesMarker`).

## Model

| member | source | states |
|---|---|---|
| ByteMasks.EdgeMaskBits | freebsd2/include/bitstring.h:86-109 | each of the four edge masks, shifted at int width, holds exactly the offsets on its side of the edge, for all 64 pairs |
| ByteMasks.OneByteMaskBits | freebsd2/include/bitstring.h:86-104 | the two combined masks of a range inside one byte hold exactly the offsets outside, and inside, the range |
| ByteMasks.BitsDetermineByte | freebsd2/include/bitstring.h:42-51 | a byte is determined by its eight bit tests |
| BitString.TouchedIsRange | freebsd2/include/bitstring.h:79-111 | the bits the range macros touch are start ... stop if and only if start lies in no later byte than stop |
| BitString.BitstrSizeIsLeast | freebsd2/include/bitstring.h:54-56 | bitstr_size is the least number of bytes with nbits bits, and equals the later versions' (nbits+7)>>3 |
| BitString.MembersDetermineArray | freebsd2/include/bitstring.h:42-69 | two arrays of one length holding the same numbers are equal |
| BitString.SetMembers | freebsd2/include/bitstring.h:71-73 | setting a bit inserts one number and changes no other |
| BitString.ClearMembers | freebsd2/include/bitstring.h:75-77 | clearing a bit deletes one number and changes no other |
| BitString.NSetMembers | freebsd2/include/bitstring.h:97-111 | the masked and filled array holds the old numbers and the touched ones |
| BitString.NClearMembers | freebsd2/include/bitstring.h:80-94 | the masked and zeroed array holds the old numbers without the touched ones |
| BitString.BitAlloc | freebsd2/include/bitstring.h:55-61 | a new array of bitstr_size(nbits) bytes holding no number |
| BitString.BitTest | freebsd2/include/bitstring.h:68-69 | non-zero exactly for the members |
| BitString.BitSet | freebsd2/include/bitstring.h:72-73 | in place: one number inserted, whole array stated |
| BitString.BitClear | freebsd2/include/bitstring.h:76-77 | in place: one number deleted, whole array stated |
| BitString.NClear | freebsd2/include/bitstring.h:80-94 | in place, both branches and the middle loop: set difference with the touched range, whole array stated |
| BitString.NSet | freebsd2/include/bitstring.h:97-111 | in place, both branches and the middle loop: union with the touched range, whole array stated |
| BitRuns.FitsIff | freebsd2/include/bitstring.h:45-111 | a macro stays inside an array exactly when the numbers it is given are numbers of its bits |
| BitLoops.NSetLoop | netbsd/include/bitstring.h:105-112 | the loop of bit_set is union with start ... stop, empty if out of order |
| BitLoops.NClearLoop | netbsd/include/bitstring.h:95-102 | the loop of bit_clear is difference with start ... stop |
| BitLoops.SetEachMembers | netbsd/include/bitstring.h:105-112 | the loop's array, as a set |
| BitLoops.ClearEachMembers | netbsd/include/bitstring.h:95-102 | the loop's array, as a set |
| BitLoops.NSetAgreesWithLoop | freebsd2/include/bitstring.h:97-111 | the masks leave the loop's array if and only if the start byte is not after the stop byte or the stray bits were set already |
| BitLoops.NClearAgreesWithLoop | freebsd2/include/bitstring.h:80-94 | the same for clearing, with the stray bits clear already |
| BitLoops.NSetOutOfOrder | freebsd2/include/bitstring.h:106-109 | setting bits 8 ... 7 of two zero bytes sets all sixteen |
| BitLoops.NClearOutOfOrder | freebsd2/include/bitstring.h:89-92 | clearing bits 8 ... 7 of two full bytes clears all sixteen |
| BitSearch.ClearScanStaysInside | freebsd2/include/bitstring.h:117-119 | every byte bit_ffc reaches lies in the array if and only if the array holds the window or some clear bit |
| BitSearch.SetScanStaysInside | freebsd2/include/bitstring.h:132-134 | the same for bit_ffs |
| BitSearch.SkipSetBits | freebsd2/include/bitstring.h:120-122 | the inner loop ends within eight shifts on the byte's lowest clear bit |
| BitSearch.SkipClearBits | freebsd2/include/bitstring.h:135-137 | the inner loop ends within eight shifts on the byte's lowest set bit |
| BitSearch.ScanForClear | freebsd2/include/bitstring.h:118-125 | the byte scan finds the least clear bit of bytes 0 ... stopbyte, or -1 if all are set |
| BitSearch.ScanForSet | freebsd2/include/bitstring.h:133-140 | the byte scan finds the least set bit of bytes 0 ... stopbyte, or -1 if all are clear |
| BitSearch.FindFirstClear | freebsd2/include/bitstring.h:114-126 | the least clear bit of the window of 8*((nbits>>3)+1) bits, or -1 if the window is full |
| BitSearch.FindFirstSet | freebsd2/include/bitstring.h:129-141 | the least set bit of that window, or -1 if it is empty |
| BitSearch.FindFirstClearCut | freebsd5/include/bitstring.h:113-129 | the least clear bit below nbits, or -1, for every nbits |
| BitSearch.FindFirstSetCut | freebsd5/include/bitstring.h:132-148 | the least set bit below nbits, or -1, for every nbits |
| BitSearch.FindFirstClearLoop | netbsd/include/bitstring.h:115-124 | the least clear bit below nbits, or -1, bit by bit |
| BitSearch.FindFirstSetLoop | netbsd/include/bitstring.h:127-136 | the least set bit below nbits, or -1, bit by bit |
| BitSearch.FirstClear | netbsd/include/bitstring.h:115-124 | trying bits one by one yields the first-clear answer whenever one exists inside the array |
| BitSearch.FirstClearUnique | freebsd2/include/bitstring.h:113-126 | a first-clear search has one answer, so the freebsd5 and netbsd searches, which promise the same of it, always agree |
| BitSearch.FirstSetUnique | freebsd2/include/bitstring.h:128-141 | the same of a first-set search |
| BitSearch.FirstClearRightIff | freebsd2/include/bitstring.h:113-126 | bit_ffc answers the least clear bit below nbits if and only if nbits is negative, such a bit exists, or the rest of the window is full |
| BitSearch.FirstSetRightIff | freebsd2/include/bitstring.h:128-141 | the same for bit_ffs |
| BitSearch.FirstSetWrong | freebsd2/include/bitstring.h:129-141 | one byte 0x02 searched for one bit: the window's answer is 1, the right one -1 |
| BitSearch.CutRepairsFirstClear | freebsd5/include/bitstring.h:126-127 | cutting the window's answer off at nbits gives the right one |
| BitSearch.CutRepairsFirstSet | freebsd5/include/bitstring.h:145-146 | the same for bit_ffs |
| BitSearch.AllocatedSearchFits | freebsd2/include/bitstring.h:55-61 | in an array from bit_alloc the freebsd2 searches stay inside if and only if nbits is no multiple of 8 or the bit sought is there; the others always do |
| BitSearch.FirstSetReadsOutside | freebsd2/include/bitstring.h:132-134 | in a zeroed array from bit_alloc(8) the search for a set bit leaves the array |
| BitSearch.SearchDuality | freebsd2/include/bitstring.h:114-141 | bit_ffc on an array answers what bit_ffs answers on its complement, and the reverse |
| BitSearch.FitDuality | freebsd2/include/bitstring.h:114-141 | one search stays inside the array if and only if the other does in the complement |
| BitSearch.RangeDuality | freebsd2/include/bitstring.h:80-111 | bit_nclear is the complement of bit_nset on the complement |
| BitRuns.RunRefines | freebsd2/include/bitstring.h:59-111 | any run of set, clear, nset and nclear on bytes is the same run on a set |
| BitRuns.RunFromAlloc | freebsd2/include/bitstring.h:59-141 | after any run from a fresh array, bit_test is membership and the searches answer the least non-member and member, -1 exactly when there is none |
| BitRuns.LastWriterWins | freebsd2/include/bitstring.h:71-111 | a bit is set after a run if and only if some step set it and no later one cleared it |
| BitRuns.RunBit | freebsd2/include/bitstring.h:71-111 | the same of the byte array |
| BitRuns.SameSetSameArray | freebsd2/include/bitstring.h:71-111 | two runs on one array leave the same array if and only if they leave the same set |
| BitRuns.NSetJoins | freebsd2/include/bitstring.h:97-111 | setting a ... b then b+1 ... c leaves the array setting a ... c leaves |
| BitRuns.NClearUndoesNSet | freebsd2/include/bitstring.h:80-111 | nset then nclear is nclear alone, and restores the array if and only if the range was clear |
| BitRuns.RangeCounts | freebsd2/include/bitstring.h:80-111 | nset adds the clear bits of the range to the count, nclear takes its set bits off |
| FirstFit.PoolInvariant | freebsd2/include/bitstring.h:72-126 | after any takes and releases, for any number of bits scanned and as long as no search left the array: numbers out are distinct, are the set bits, and lie below the recorded peak |
| FirstFit.SearchFitsIff | freebsd2/include/bitstring.h:117-119 | after any run a search of m bits stays inside if and only if the array holds m bits or not all its bits are out |
| FirstFit.RunLeavesIff | freebsd2/include/bitstring.h:117-119 | a run reads outside the array if and only if the search scans more bits than the array has and some step takes with every one of them out |
| FirstFit.AnswerIsLeastFree | freebsd2/include/bitstring.h:114-126 | after any run a first-clear search answers the least number not out, at most as many as are out, and none exactly when n are |
| FirstFit.TakeAnswers | freebsd2/include/bitstring.h:72-126 | a take that stays inside puts the least number not out last among those out, and changes nothing exactly when n are out |
| FirstFit.TakeGets | freebsd2/include/bitstring.h:72-126 | for every run: the least number not out, if below n, is handed out and its bit set; else nothing changes |
| FirstFit.ReleaseGives | freebsd2/include/bitstring.h:75-77 | for every run: the number named is out no longer and its bit clear, the others stay out in order; an index past the end changes nothing |
| FirstFit.ReleasedIsTakenNext | freebsd2/include/bitstring.h:72-126 | a number released is the next one taken when every smaller one is out, and the array is as before |
| FirstFit.PeakIsBound | freebsd2/include/bitstring.h:72-126 | the recorded peak is at least the count of numbers out after each action of the run |
| FirstFit.PeakIsReached | freebsd2/include/bitstring.h:72-126 | and equals it after one of them |
| FirstFit.TakesCountUp | freebsd2/include/bitstring.h:114-126 | k takes in a row get 0, 1, ..., k-1, as long as the array and the scan have k bits |
| FirstFit.NextTakeInsideIff | freebsd2/include/bitstring.h:55-126 | on bit_alloc(nbits), for every nbits and after any run, the next bit_ffc stays inside if and only if nbits is no multiple of 8 or fewer than nbits numbers are out |
| FirstFit.PoolAnswerRightIff | freebsd2/include/bitstring.h:113-126 | on bit_alloc(nbits), for every nbits and after any run, a bit_ffc that stays inside answers right if and only if a number below nbits is free or the whole window is out |
| FirstFit.AlignedSearchIff | freebsd2/include/bitstring.h:113-126 | for a multiple of 8, after any run kept by the corrected search, bit_ffc would stay inside if and only if fewer than nbits numbers are out, and would then answer the same |
| FirstFit.FullPoolOverflows | freebsd2/include/bitstring.h:113-126 | with all nbits numbers out -1 is the right answer, but the least clear bit bit_ffc answers is nbits |
| FirstFit.FullPoolReadsOutside | freebsd2/include/bitstring.h:113-126 | for a multiple of 8 the take after nbits takes leaves the array |
| FirstFit.UnusedBitsKeepFirstSetRight | freebsd2/include/bitstring.h:128-141 | bit_ffs answers right when only numbers below nbits were set |
| Stdio.File.Sgetc | freebsd2/include/stdio.h:367 | whole stream and result after one __sgetc |
| Stdio.CharOfIsLowByte | freebsd2/include/stdio.h:371 | the character of an int is the one that differs from it by a multiple of 256 |
| Stdio.File.Sputc | freebsd2/include/stdio.h:369-374 | whole stream and result after one inline __sputc; a fast call stores and returns the int's low eight bits |
| Stdio.File.SputcMacro | freebsd2/include/stdio.h:379-386 | whole stream and result after one macro __sputc; a fast call stores and returns the int's low eight bits |
| Stdio.File.FlagTests | freebsd2/include/stdio.h:97-98 | the flags word by its values: 0x0009 both set means line buffered, 0x0001, 0x0004 and 0x0008 the single flags |
| Stdio.ValidIsSafe | freebsd2/include/stdio.h:92-108 | on a well-formed stream no call stores or fetches outside the buffer or takes a counter outside the 32-bit range |
| Stdio.CountedIffInBounds | freebsd2/include/stdio.h:119-125 | on a writing stream the counters ask exactly that every put they let onto the fast path be stored inside the buffer, with the counter on its side of zero |
| StdioRuns.RunKeepsValid | freebsd2/include/stdio.h:92-108 | a run of fast calls keeps the stream well formed |
| StdioRuns.RunConserves | freebsd2/include/stdio.h:367-386 | over any mixed run p + r + w is constant but for the one decrement of a slow call; p stays in the buffer, no counter underflows, no fast call returns EOF |
| StdioRuns.FastCallsFitMode | freebsd2/include/stdio.h:102-103 | only calls of the stream's own mode are fast |
| StdioRuns.WrongModeIsSlow | freebsd2/include/stdio.h:95-104 | from the documented invariant alone: every put on a read-mode stream and every get on a write-mode one takes the slow path and changes nothing but the counter |
| StdioRuns.RunStopsAtWrongMode | freebsd2/include/stdio.h:102-103 | a run ends at the latest at the first call of the other mode |
| StdioRuns.AllSlowIff | freebsd2/include/stdio.h:97-103 | every put is slow if and only if neither counter leaves room, every get if and only if r does not |
| StdioRuns.WriteRunCalls | freebsd2/include/stdio.h:369-374 | from any writing stream the run puts exactly what room and first newline allow, in order, and hands over the next |
| StdioRuns.WriteRunBuffer | freebsd2/include/stdio.h:369-374 | the characters stand behind the old contents and no other byte changes |
| StdioRuns.WriteFromEmpty | freebsd2/include/stdio.h:97-108 | from an empty buffer __swbuf is first called at character size+1, or at the first newline if sooner when line buffered; the counter mirrors p in both modes |
| StdioRuns.ReadRun | freebsd2/include/stdio.h:367 | a read run returns the buffered characters in order and first calls __srget at call r+1 |
| StdioRuns.ReadFromBase | freebsd2/include/stdio.h:367 | from a buffer holding r characters they are returned from the base on; __srget is first called at call r+1 |
| StdioRuns.WrittenReadsBack | freebsd2/include/stdio.h:367-374 | what a write run stored is what a read run over it returns |
| StdioRuns.BytesComeBack | freebsd2/include/stdio.h:367-374 | put and get are 8-bit clean: characters of any value come back as they were put |
| StdioRuns.FormsAgreeOnStep | freebsd2/include/stdio.h:369-386 | inline and macro make the same step but for a line-buffered newline with room left |
| StdioRuns.FormsAgree | freebsd2/include/stdio.h:369-386 | over any mixed run the two forms give the same result, but for the uncounted newline at p and the int passed on |
| StdioRuns.HandedOverAlike | freebsd2/include/stdio.h:373-385 | the character both forms pass to __swbuf is the same |
| StdioRuns.SameIntHandedOverIff | freebsd2/include/stdio.h:369-386 | on a writing stream, for any characters, the forms pass the same int unless the first character not put fast is a newline in disguise, line buffered and with room left |
| StdioRuns.FormsHandOverDifferently | freebsd2/include/stdio.h:373-385 | 266 on an empty line-buffered stream of one byte: 266 from the inline form, 10 from the macro |
| KernelImage.SignatureIsSpelled | freebsd2/release/write_mfs_in_kernel.c:66 | the signature stands exactly where the 24 characters the source spells and a NUL stand |
| KernelImage.SameString | freebsd2/release/write_mfs_in_kernel.c:66 | the string comparison holds exactly where signature and NUL stand |
| KernelImage.Search | freebsd2/release/write_mfs_in_kernel.c:65-67 | the search loop, with its test of the first byte, finds the least place in the window where those characters stand |
| KernelImage.CountZeros | freebsd2/release/write_mfs_in_kernel.c:72-74 | the check counts the zero bytes before the first other one |
| KernelImage.Memcpy | freebsd2/release/write_mfs_in_kernel.c:75 | the copy overlays the bytes and changes nothing else |
| KernelImage.CheckAndCopy | freebsd2/release/write_mfs_in_kernel.c:71-86 | whole image and outcome of check and copy at a place |
| KernelImage.PatchKernel | freebsd2/release/write_mfs_in_kernel.c:65-82 | whole image and outcome of one run, forced or not, and each byte of the image with the superblock at 8192 |
| KernelImage.FindIsLeast | freebsd2/release/write_mfs_in_kernel.c:65-69 | the result is the least offset below kernel size minus file system size where those characters stand; none exactly when there is none |
| PatchRuns.SignaturesApart | freebsd2/release/write_mfs_in_kernel.c:66 | two signatures never overlap |
| KernelImage.PatchFrame | freebsd2/sys/ufs/ffs/fs.h:64-67 | byte i is the file system's from 8192 past the place to its end after a written run, the kernel's elsewhere and always otherwise |
| PatchRuns.PatchOutcome | freebsd2/release/write_mfs_in_kernel.c:65-86 | when each ending occurs; on refusal the image is unchanged and the count points at the first non-zero byte |
| PatchRuns.SearchFitsWhen | freebsd2/release/write_mfs_in_kernel.c:65-67 | the search compares inside the image whenever the file system is no shorter than the signature or the image holds one |
| PatchRuns.PatchableIff | freebsd2/release/write_mfs_in_kernel.c:65-75 | a run is defined exactly when the file system reaches the superblock, or has no place and no comparison leaves the image |
| PatchRuns.PatchKeepsSearches | freebsd2/release/write_mfs_in_kernel.c:65-75 | after a patch every search, for a file system of any size, goes as before |
| PatchRuns.ForcedRepatch | freebsd2/release/write_mfs_in_kernel.c:65-75 | forcing fs2 over fs1 equals forcing fs2 alone if and only if fs1 found no place, fs2 is written at least as far, or what fs1 has more was there before |
| PatchRuns.ForcedRepatchLeavesTail | freebsd2/release/write_mfs_in_kernel.c:65-75 | two file systems one byte apart in length for which it does not |
| PatchRuns.ForcedIdempotent | freebsd2/release/write_mfs_in_kernel.c:65-75 | forcing one file system twice is forcing it once |
| PatchRuns.UnforcedIsReversible | freebsd2/release/write_mfs_in_kernel.c:71-75 | zeroing what an unforced run wrote restores the kernel |
| PatchRuns.UnforcedTwice | freebsd2/release/write_mfs_in_kernel.c:71-86 | a second unforced run goes through exactly when fs is zero from SBOFF on, else is refused at fs's first non-zero byte |
| PatchRuns.LayoutIsSpelled | freebsd2/sys/ufs/mfs/mfs_vfsops.c:110-111 | the layout by the characters of the stop marker the kernel's source spells |
| PatchRuns.StopMarkerStops | freebsd2/sys/ufs/mfs/mfs_vfsops.c:110-111 | unforced, the stop marker survives and refuses a file system too large for the space, at exactly the space's size when it is empty |
| PatchRuns.ForcedStopMarker | freebsd2/release/write_mfs_in_kernel.c:89-95 | forced, it survives if and only if the file system fits or holds the same bytes as far as it reaches over the marker |
| PatchRuns.ForcedOverwritesMarker | freebsd2/release/write_mfs_in_kernel.c:89-95 | a file system one byte too large for which it does not |
| PatchRuns.LastWriterWins | freebsd2/release/write_mfs_in_kernel.c:65-75 | after any runs each byte is the last writer's or the kernel's own |
| PatchRuns.UnforcedLosesNothing | freebsd2/release/write_mfs_in_kernel.c:71-75 | no number of unforced runs changes a non-zero byte of the kernel |

## Left out

- The copies of `bitstring.h` in freebsd3, freebsd4 and openbsd and of `stdio.h` elsewhere in the tree: the same code.
- `bit_decl`: a declaration; its size is `bitstr_size`.
- BitString.BitAlloc: calloc is taken to succeed, and nbits to be non-negative.
- Negative bit numbers in the bit macros: they index before the array.
- `__swbuf`, `__srget`, flushing and locking: their bodies are not in the headers, so every run stops at the first call of one.
- `ungetc` buffers (`_ub`, `_up`, `_ur`): only slow-path code uses them.
- Converting an int to a character, which C leaves to the implementation when it does not fit, is taken modulo 256.
- The macro forms evaluate their stream argument several times: arguments are taken to have no side effects.
- `main`'s options, files and messages in `write_mfs_in_kernel.c`: the two files are arrays, `-f` is a flag.
- KernelImage.PatchKernel: does not model a file system shorter than SBOFF when a place for it is found (the copy's length is then negative), or shorter than the signature when a comparison runs off the image; C leaves both open.
- PatchRuns.StopMarkerStops: that the linker puts the stop marker right behind the space is a hypothesis, since it is not decided by the source.
