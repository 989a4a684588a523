# TinyEMU, modelled and proved

TinyEMU is a RISC-V machine emulator. This project models five parts of it in Dafny and proves
what each of them is for:

1. **Software floating point** (`softfp_template.h`, `softfp_template_icvt.h`): one model for the
   three formats the template is instantiated with. Addition, multiplication, division, fused
   multiply-add, square root and all conversions deliver the exact real result rounded once, with
   exactly the exceptions IEEE 754-2008 asks for, in all five rounding modes.
2. **Address translation and dirty tracking** (`riscv_cpu.c`, `riscv_cpu_priv.h`, `iomem.c`,
   `simplefb.c`, the 32-bit build): translation is what the page tables in memory say, a TLB hit is a fresh page walk, over whole runs, a load delivers
   the bytes of RAM that walk leads to, and no store to the framebuffer is missed by the next refresh.
3. **Block storage** (`block_net.c`, `virtio.c`): the HTTP block device behaves as a flat disk, copies
   to and from descriptor chains are slices of the chain's bytes, and over whole runs, whatever the guest
   does to its memory meanwhile, every request is answered once, in order, a read with the sectors of the
   disk in the chain's writable bytes.
4. **The in-memory filesystem** (`fs_net.c`, `fs_utils.c`, `build_filelist.c`): reference counts, open
   counts, block and cache accounting at every moment of every run, which goes on exactly until a request
   goes wrong; files as byte sequences; the file list printed by one program and parsed by the other.
5. **Streaming crypto** (`fs_wget.c`, `aes.c`, `sha256.c`): decryption and hashing of a stream do not
   depend on how it is cut; an encrypted file comes back, and the hash has a known answer.

`dafny verify dfyconfig.toml` checks everything.

## How the model is built

Values are unbounded integers; machine words appear with their width as a parameter and wrap-around
written out. Objects that the source updates in place are classes or arrays, and their methods are
tied to functions on values, about which the run theorems are stated.

| part | files |
|---|---|
| shared types | `Wrappers`, `ByteStreams` |
| arithmetic | `Arith`, `SignedDivision` |
| floating point: what is asked for | `FloatFormat` (words, values), `Rounding` (IEEE 754-2008 sections 4.3 and 7.4 to 7.6) |
| floating point: the shared rounding | `Sticky`, `Significand`, `Packing`, `Normalize`, `DoubleWord` |
| floating point: the operations | `Operands`, `Addition`, `MultiWord`, `Multiplication`, `Division`, `SquareRoot`, `FusedMultiplyAdd`, `IntegerConversion`, `FloatConversion`, `Comparison` |
| memory | `PhysMemory`, `Sv32` (the walk), `PageTables` (what it decides, from tables as laid out in memory), `Tlb` (states and events), `StoredWords`, `TlbCoherence`, `TlbExactness`, `TlbStores`, `MemoryBytes`, `DirtyTracking`, `DirtyBitmap`, `Simplefb`, `Cpu` (the imperative side) |
| block storage | `BlockDevice`, `Virtqueue`, `VirtioBlock` (the rings), `VirtioDisk` (requests from chain to disk and back), `VirtioRuns` (histories of whole runs) |
| filesystem | `FsGraph` (invariant), `FsNet` (operations), `FsServe` (runs), `FsRuns` (runs that go wrong), `FileBytes`, `FileListText`, `FileList`, `FileListIo`, `FileListExample`, `FsLoad` |
| crypto | `Cbc`, `DecryptFile`, `Sha256`, `Sha256Stream`, `Sha256Values` (bytes, bits and constants in numbers), `Sha256Example` (a known answer) |

Floating-point results are compared with exact reals. A *magnitude word* is a word without its sign
bit; counted upwards, magnitude words enumerate the representable magnitudes, so rounding is choosing
between neighbouring words. Routines keep only a mantissa with a sticky bit; `Sticky.StandsFor` says
when such a mantissa determines the rounding, and every routine is shown to hand one to the shared
rounding step. Square roots are irrational in general, so `SquareRoot.DeliversRoot` compares squares;
`RootMeaning` shows that this is the rounding of any real that is the root.

## What the proofs found

These are places where the code does not do what one would expect. In each case the model follows
the code, and it is proved exactly when the code does meet the expectation.

- `mulh` and `mulhsu` (riscv_cpu_template.h:150-168) correct the unsigned high word by subtracting the
  operand that is negative instead of the other one. `mulh` is right exactly if both operands have the
  same sign, `mulhsu` exactly if the signed operand is not negative or equals the other as a word. The
  template helpers are used only where no wider integer type is available.
- `sqrtrem_u`'s first guess (softfp_template.h:664-675) is too small for some integers with a non-empty low
  word, and the iteration then stops below the root. It is never too small with an empty low word,
  which is how `sqrt_sf` calls it. In the two-word form the sum of quotient and divisor wraps, and the
  next division fails its assertion, exactly for the largest integer, 2^(2·size-2) - 1.
- A trap taken in M-mode, and `mret` at an unchanged privilege, change MPP. Under MPRV with page tables
  in use that changes how loads are translated, but the TLBs are not flushed (riscv_cpu.c:1042-1157).
  For every setting of the registers, such an event keeps all coherent states coherent exactly if it
  does not change that view, and otherwise there is a load that it leaves with a stale hit. Moving or
  disabling a RAM range flushes the write TLB only (iomem.c:208-232). For every map, that keeps all
  coherent states coherent exactly if no byte of RAM leaves its address, which among ranges that do not
  overlap is any change to an enabled RAM range below 2^32. Stores to page tables are the guest's to
  follow up with `sfence.vma`: for all registers and every map, a store keeps all coherent states
  coherent exactly if no byte reached through a walk is reached otherwise afterwards, but for a page
  whose write entry the store itself replaces; a store by a device, exactly if none is.
- A trap saves the interrupt enable of the interrupted mode and clears that of the handler's
  (riscv_cpu.c:1098-1117). The return gives back the former; the latter stays off, whatever it was, if
  the trap came from another mode.
- The HTTP block device clamps a read to the block and not to the cluster (block_net.c:288-323). With
  blocks larger than a cluster, a read that covers an unwritten cluster and, later in the same block, a
  written one takes the image there. A completed read is the disk exactly if the image and the disk
  agree on the sectors so shadowed; `BlockDevice.StaleRead` is a run, for any image and data, in which
  they do not.
- A virtio-block write hands its buffer to the block device and frees it at once (virtio.c:1096-1110),
  also when the device waits for a block and reads the buffer later. The data reach the disk, whatever
  the freed memory comes to hold, exactly if before the call every sector of the request is at hand: its
  cluster written, or its block loaded. Otherwise the sectors before the first one that is not at hand
  are those of the request, and all others are what the freed memory holds; `VirtioDisk.LostWrite` is a
  run, for any image, data and later content of that memory, which ends with that content on the disk
  and status OK.
- The floating-point narrowing conversions ignore what their normalisation of subnormals returns
  (softfp_template.h:998-1004). That misplaces the mantissa, but never changes the result.
- `simplefb_refresh` passes a rectangle of negative height exactly if, among the bitmap words it looks
  at, a dirty page begins more than three lines below the screen, or one begins behind the line next to
  the screen and no dirty page on the screen ends near enough to one below it to be merged with it.
  `Simplefb.BelowTheScreen` is such a call for an 800 by 600 screen and the alignment of simplefb.c:117.
- virtio-block does not answer requests that are neither reads nor writes (virtio.c:1064-1115), nor
  chains that are out of order or too short for a header. A write without a writable byte fails an
  assertion, a read without one writes the byte before its buffer, and the sectors asked for are not
  checked against the size of the disk.
- A directory that has been unlinked while a file is on it takes new entries. Closing that file while
  there are some, or creating another one through it, fails the assertion in `inode_free`
  (fs_net.c:375-377), exactly if it was the last use of the directory; `FsRuns.UnlinkThenAdd` is such a
  run. Unlinking a directory fails it exactly if its entries "." and ".." are the last names of another
  directory, which has entries and no file on it; that takes renames of those names, as in
  `FsRuns.UnlinkForeignDots`. No request fails it unless a directory has lost its "." by a rename, or
  gets or got an entry after it was emptied.
- Linking or renaming into what is not a directory, or making a node in it, fails the assertion in
  `inode_dir_add` (fs_net.c:456); of these requests none checks the type of its target.
- Renaming a file onto itself frees the directory entry that is then moved (fs_net.c:1433-1455), exactly
  if both directories and names are the same and the entry names no directory; `FsRuns.RenameOntoItself`
  is such a run.
- Deleting an FSFile whose open waits for a load leaves the load with a pointer to it (fs_net.c:579-584),
  exactly if the inode is not released with it; `FsRuns.OpenThenDelete` is a run that does so.
- Giving a URL to an empty local file takes its content away from files that have it open
  (fs_net.c:1674-1701), exactly if there are any and the new size is not zero; `FsRuns.OpenThenSetUrl`
  is a run that does so.

## Model

| member | source | states |
|---|---|---|
| FloatFormat.MagStep | tinyemu/softfp_template.h:78-91 | the next magnitude word has the next magnitude, one unit in the last place further on |
| FloatFormat.MagMono | tinyemu/softfp_template.h:78-91 | words order magnitudes |
| FloatFormat.MagOfSignificand | tinyemu/softfp_template.h:78-91 | the word of a significand at an exponent, normal or subnormal, has that significand's value |
| FloatFormat.Unpacked | tinyemu/softfp_template.h:85-91 | the unpacked exponent and significand determine a word's magnitude, the leading one being implicit in normal words only |
| FloatFormat.QuietBit | tinyemu/softfp_template.h:215-222 | a NaN is signaling exactly when the top bit of its mantissa is clear |
| FloatFormat.QNaNIs | tinyemu/softfp_template.h:76-76 | the NaN delivered is quiet and positive, its quiet bit the only one set in its mantissa |
| FloatFormat.Encoded | tinyemu/softfp_template.h:78-91 | what a word with given sign, biased exponent and fraction is: the number of IEEE 754-2008 section 3.4, infinity or a NaN |
| Rounding.LocalRounding | tinyemu/softfp_template.h:108-175 | choosing between the two neighbours of a value is rounding among all representable values, in every mode |
| Rounding.RoundingExists | tinyemu/softfp_template.h:108-175 | every real has a rounding in every mode |
| Rounding.RoundingUnique | tinyemu/softfp_template.h:108-175 | and only one, ties included |
| Rounding.RoundingBounded | tinyemu/softfp_template.h:108-175 | rounding never passes a representable magnitude |
| Sticky.QuotientIsOddRounding | tinyemu/softfp_template.h:93-105 | folding a nonzero remainder into the lowest bit of a quotient rounds to odd |
| Sticky.OddStandsFor | tinyemu/softfp_template.h:93-105 | an odd rounding decides in which half of any rounding step of even width the exact value lies |
| Sticky.ShiftDown | tinyemu/softfp_template.h:93-105 | shifting right with a sticky bit keeps deciding it, also when bits were lost before |
| Sticky.ScaleUp | tinyemu/softfp_template.h:178-187 | so does shifting left, the step growing along |
| Significand.SignificandChoice | tinyemu/softfp_template.h:114-155 | adding the addend of the mode and truncating goes up exactly when the mode asks for it |
| Significand.SignificandRounds | tinyemu/softfp_template.h:108-175 | the rounded significand of a sticky mantissa is the significand of the exact value's rounding |
| Packing.Denormalised | tinyemu/softfp_template.h:136-150 | rounding after rshift_rnd is rounding the unshifted exact value |
| Packing.NormalIsNotTiny | tinyemu/softfp_template.h:136-150 | a value in the normal range is never tiny after rounding |
| Packing.SmallIsTiny | tinyemu/softfp_template.h:136-150 | a nonzero value below half the smallest normal number always is |
| Packing.TinyInLastBinade | tinyemu/softfp_template.h:136-150 | in between it is tiny exactly if rounding with one more bit stays below the smallest normal number |
| Packing.RoundPack | tinyemu/softfp_template.h:108-175 | the word delivered is the rounding of the exact value (ties, subnormals, overflow to the largest number or infinity as the mode says), with overflow, underflow (tiny after rounding and inexact) and inexact exactly when due |
| Normalize.NormalizePack | tinyemu/softfp_template.h:178-187 | the same for a mantissa of any width, exact or an odd rounding with two spare bits |
| Operands.NormalOperand | tinyemu/softfp_template.h:298-304 | a subnormal operand gets its leading one and keeps its value |
| Addition.Aligned | tinyemu/softfp_template.h:266-282 | three guard bits with a sticky bit tell enough about the shifted operand, also after cancellation |
| Addition.AddSpecial | tinyemu/softfp_template.h:252-265 | the results for infinities and NaNs |
| Addition.AddSf | tinyemu/softfp_template.h:234-290 | the exact sum rounded once, its sign as section 6.3 has it, its exceptions exactly those due; otherwise the special results |
| MultiWord.NoLostCarry | tinyemu/softfp_template.h:320-343 | the four half-word columns with their carries make up the product |
| MultiWord.MulU | tinyemu/softfp_template.h:320-343 | high * 2^size + low is the product |
| MultiWord.DividingStep | tinyemu/softfp_template.h:567-585 | one round of shifting and subtracting divides one bit more, also when the shifted remainder carries out of the word |
| MultiWord.DivRemU | tinyemu/softfp_template.h:567-585 | quotient and remainder of a double word whose upper word is less than the divisor |
| MultiWord.NewtonStep | tinyemu/softfp_template.h:675-681 | a step of the iteration never falls below the root, and stops descending only at it |
| MultiWord.SqrtRemWide | tinyemu/softfp_template.h:659-685 | the integer part of the root, if and only if the first guess is not below it, and else the guess itself; the inexact flag says whether the result squares to the argument |
| MultiWord.GuessSuffices | tinyemu/softfp_template.h:664-675 | with an empty low word the guess is never too small |
| MultiWord.GuessTooSmall | tinyemu/softfp_template.h:664-675 | with a low word it can be: (2^(size/2) + 1)^2 is a counterexample at every width |
| MultiWord.IterationFits | tinyemu/softfp_template.h:689-716 | above the root the divisor exceeds the upper word, and quotient plus divisor fits a word but for the largest integer |
| MultiWord.GuessRange | tinyemu/softfp_template.h:694-703 | a first guess below the root still exceeds the upper word, and its square is more than half the integer |
| MultiWord.EmptyLowWord | tinyemu/softfp_template.h:689-716 | with an empty low word neither happens |
| MultiWord.SqrtRemU | tinyemu/softfp_template.h:689-716 | the two-word form fails the assertion of its division if and only if the integer is the largest one; otherwise it is the integer part of the root if and only if the first guess is not below it, else the guess, with the right inexact flag |
| MultiWord.SignedHigh | tinyemu/riscv_cpu_template.h:150-168 | reading an operand as signed lowers the upper word of a product by the other operand |
| MultiWord.MulH | tinyemu/riscv_cpu_template.h:150-159 | the signed upper word, if and only if the operands have the same sign; always the unsigned upper word less the negative operands |
| MultiWord.MulHSU | tinyemu/riscv_cpu_template.h:161-168 | the mixed upper word, if and only if the signed operand is not negative or both words are equal; always the unsigned upper word less the signed operand if negative |
| MultiWord.MulHOfMinusOne | tinyemu/riscv_cpu_template.h:150-168 | -1 times 1: both return 1 where the upper word is all ones |
| SignedDivision.DivAndRem | tinyemu/riscv_cpu_template.h:37-66 | div and rem stay in range and satisfy the division identity, the remainder taking the dividend's sign; for a zero divisor -1 and the dividend; the overflowing quotient satisfies it in words |
| Multiplication.ProductWords | tinyemu/softfp_template.h:394-398 | the shifted significands fill two words whose upper one, with a sticky bit, is an odd rounding of the product |
| Multiplication.MulSpecial | tinyemu/softfp_template.h:363-379 | the results for infinities and NaNs |
| Multiplication.MulSf | tinyemu/softfp_template.h:349-399 | the exact product rounded once, with exactly the exceptions due; otherwise the special results |
| Division.QuotientWidth | tinyemu/softfp_template.h:648-652 | the quotient of two significands stays within a factor of two, wide enough for the sticky bit |
| Division.DivSpecial | tinyemu/softfp_template.h:603-636 | the results for infinities, NaNs and a zero divisor, with its exception |
| Division.DivSf | tinyemu/softfp_template.h:589-653 | the exact quotient rounded once, with exactly the exceptions due; otherwise the special results |
| SquareRoot.RootMeaning | tinyemu/softfp_template.h:720-767 | rounding by comparing squares is rounding the real whose square the operand is |
| SquareRoot.SqrtSpecial | tinyemu/softfp_template.h:730-751 | the results for NaNs, infinities, zeros and negative operands |
| SquareRoot.SqrtSf | tinyemu/softfp_template.h:720-767 | the square root of a positive finite number, correctly rounded in every mode, inexact exactly when it is irrational or does not fit |
| DoubleWord.AlignWords | tinyemu/softfp_template.h:501-516 | the five cases of the double-word shift as one function of the shift count, the last but one dropping the old low word |
| DoubleWord.AddWords | tinyemu/softfp_template.h:520-522 | double-word addition, the carry found by comparing |
| DoubleWord.SubWords | tinyemu/softfp_template.h:523-527 | double-word subtraction, the borrow found by comparing |
| DoubleWord.Normalize2Pack | tinyemu/softfp_template.h:191-213 | normalising, rounding and packing a double-word mantissa delivers the exact value it stands for |
| FusedMultiplyAdd.DroppedBits | tinyemu/softfp_template.h:506-508 | dropping the old low word leaves an odd rounding, or leaves the mantissa strictly inside the same rounding step |
| FusedMultiplyAdd.AlignedStandsIn | tinyemu/softfp_template.h:501-516 | what every case of the alignment tells about the shifted addend |
| FusedMultiplyAdd.InsideStep | tinyemu/softfp_template.h:501-532 | adding or subtracting something strictly inside a step stays strictly inside the neighbouring step |
| FusedMultiplyAdd.MultiplyWide | tinyemu/softfp_template.h:462-471 | the product, unrounded, in two words with its leading one in a fixed place |
| FusedMultiplyAdd.AddAligned | tinyemu/softfp_template.h:491-550 | the sum of two such addends, rounded once |
| FusedMultiplyAdd.FmaZeroProduct | tinyemu/softfp_template.h:440-457 | a zero product: the addend itself, or a zero with the right sign |
| FusedMultiplyAdd.DeliversItself | tinyemu/softfp_template.h:449-457 | a representable number is its own rounding, without exceptions |
| FusedMultiplyAdd.FmaSpecial | tinyemu/softfp_template.h:419-439 | the results for infinities and NaNs |
| FusedMultiplyAdd.FmaSf | tinyemu/softfp_template.h:402-552 | a * b + c computed exactly and rounded once in every mode, with exactly the exceptions due; otherwise the special results |
| IntegerConversion.MantissaToInteger | tinyemu/softfp_template_icvt.h:74-103 | rounding a mantissa with its fraction bits is rounding to an integer; the fraction bits are zero exactly if nothing is lost |
| IntegerConversion.BeyondRange | tinyemu/softfp_template_icvt.h:49-72 | numbers with large exponents, infinities and NaNs lie beyond every integer range |
| IntegerConversion.RoundsToIntegerUnique | tinyemu/softfp_template_icvt.h:74-103 | what it is to round to an integer has one answer in every mode |
| IntegerConversion.RangeExact | tinyemu/softfp_template_icvt.h:49-72 | the ends of the range are those of the integers that their words in two's complement stand for |
| IntegerConversion.ToInteger | tinyemu/softfp_template_icvt.h:38-108 | the value rounded in the mode and saturated to the signed or unsigned range; invalid exactly when it does not fit or is a NaN, inexact otherwise exactly when bits were lost |
| IntegerConversion.FromInteger | tinyemu/softfp_template_icvt.h:125-153 | the integer correctly rounded, also when it is wider than the floating-point word |
| FloatConversion.Widen | tinyemu/softfp_template.h:945-976 | a wider format holds the same value and sign, without exceptions |
| FloatConversion.NarrowedSubnormal | tinyemu/softfp_template.h:998-1009 | the misplaced mantissa of a subnormal is so deep below the narrower format that only its being nonzero matters |
| FloatConversion.Narrow | tinyemu/softfp_template.h:978-1010 | the value correctly rounded to the narrower format |
| FloatConversion.WidenAndNarrow | tinyemu/softfp_template.h:945-1010 | widening and narrowing again gives the same word, in any mode, without exceptions |
| FloatConversion.DeliveryUnique | tinyemu/softfp_template.h:108-175 | result and exceptions are determined by the exact value, its sign and the mode |
| FloatConversion.TheThreeFormats | tinyemu/softfp.c:75-84 | the 32-, 64- and 128-bit formats are instances of the model, each pair convertible |
| Comparison.RankOrders | tinyemu/softfp_template.h:854-896 | signed words are ordered as the numbers they stand for |
| Comparison.ComparisonsOrder | tinyemu/softfp_template.h:840-896 | equal, less and less-or-equal decide the order of the numbers, zeros being equal; which NaNs raise invalid |
| Comparison.MinAndMax | tinyemu/softfp_template.h:771-838 | of two numbers the operands in order, the sign deciding between zeros; with a NaN a number exactly if one operand is one and the kind of minimum prefers it, else the default NaN; invalid exactly for signaling NaNs |
| PhysMemory.PageRam | tinyemu/iomem.c:68-78 | bytes of one page lie in one range, equally far apart |
| Sv32.SamePageReaches | tinyemu/riscv_cpu.c:184-294 | addresses of one page are translated alike |
| Sv32.TranslateIgnoresAD | tinyemu/riscv_cpu.c:244-293 | accessed and dirty bits play no part in a translation |
| Sv32.AfterWalkSameButAD | tinyemu/riscv_cpu.c:275-285 | accessed and dirty bits are all that a walk changes |
| Sv32.StoreElsewhere | tinyemu/riscv_cpu.c:184-294 | a store to no word of the walk changes no translation |
| PageTables.MappedPage | tinyemu/riscv_cpu.c:188-294 | for two levels of tables laid out in memory bit by bit: the address is translated if and only if the page's entry is valid, not writable without being readable, open to the privilege, and has R, W or X for the access; to the page's frame and the offset in it; the walk sets A and, for a write, D in that entry and changes nothing else |
| PageTables.MappedSuperpage | tinyemu/riscv_cpu.c:188-294 | the same for a leaf in the first table, which maps 4 megabytes |
| PageTables.NotMapped | tinyemu/riscv_cpu.c:195-224 | in machine mode and without the mode bit of satp, addresses are physical |
| PageTables.PlaceInTlb | tinyemu/riscv_cpu_priv.h:252-262 | the low 8 bits of the page number choose the entry, whose address is that of the page |
| PageTables.StatusRead | tinyemu/riscv_cpu_priv.h:140-163 | the fields read from a word with mstatus laid out bit by bit are those fields |
| PageTables.StatusWritten | tinyemu/riscv_cpu.c:629-698 | a write to mstatus or sstatus takes exactly the bits of its mask from the word and keeps the others |
| PageTables.SatpWritten | tinyemu/riscv_cpu.c:935-944 | a write to satp keeps mode and page number and drops the address space |
| PageTables.TrapAndReturn | tinyemu/riscv_cpu.c:1042-1157 | after a trap and its return, privilege and all of mstatus exactly: the interrupted mode's interrupt enable is back, the handler's is off unless it was the interrupted mode |
| TlbCoherence.HitIsFresh | tinyemu/riscv_cpu_priv.h:252-281 | in a coherent state a hit in any TLB is the byte a fresh walk leads to |
| TlbCoherence.SlowCoherent | tinyemu/riscv_cpu.c:297-566 | a slow access finds that byte and fills the TLB coherently |
| TlbCoherence.MovedReach | tinyemu/iomem.c:208-232 | where a moved range takes no byte of RAM from its address, every walk that led to RAM leads to the same byte |
| TlbCoherence.RegisterStep | tinyemu/riscv_cpu.c:674-699 | mstatus writes, privilege changes, traps and returns either flush or leave every access steered as it was, but for changes of MPP under MPRV with page tables in use |
| StoredWords.StoreSameButAD | tinyemu/riscv_cpu_priv.h:269-281 | a store leaves the same, accessed and dirty bits aside, whether or not a walk has set such bits before |
| TlbCoherence.StepCoherent | tinyemu/riscv_cpu.c:674-699 | every event that outdates nothing keeps all three TLBs coherent |
| TlbCoherence.StepSound | tinyemu/riscv_cpu.c:587-606 | every flush makes any state coherent |
| TlbCoherence.RunCoherent | tinyemu/riscv_cpu.c:297-626 | after any run the TLBs are coherent unless something has outdated them since the last flush |
| TlbCoherence.StoreOffTables | tinyemu/riscv_cpu.c:184-294 | a store to no word of the page tables outdates nothing |
| TlbCoherence.AccessesAreFresh | tinyemu/riscv_cpu_priv.h:252-281 | after any such run every access through the TLBs has the outcome of a fresh walk: the same byte of RAM, the same address outside RAM, or a page fault |
| TlbExactness.StaleRun | tinyemu/riscv_cpu_priv.h:252-281 | a load left stale is one that a run from reset ends with: the load again would hit another byte than a fresh walk leads to |
| TlbExactness.TrapOutdates | tinyemu/riscv_cpu.c:1042-1120 | for all registers under which a trap changes the view of memory there is a load from reset that the trap leaves with a stale hit |
| TlbExactness.ReturnOutdates | tinyemu/riscv_cpu.c:1143-1157 | the same for mret |
| TlbExactness.RegisterEventsExact | tinyemu/riscv_cpu.c:674-699 | for all registers and every event on them: it keeps all coherent states coherent if and only if it does not change the view of memory unflushed, and leaves no load stale if and only if so |
| TlbExactness.MoveOutdates | tinyemu/iomem.c:208-232 | whatever byte of RAM a move takes from its address, there is a load of it that the move leaves with a stale hit |
| TlbExactness.MovesExact | tinyemu/iomem.c:208-232 | for every map, moving, enabling or disabling a range keeps all coherent states on it coherent if and only if no byte of RAM leaves its address |
| TlbExactness.UprootsAmongApart | tinyemu/iomem.c:208-232 | among ranges that do not overlap that is so exactly unless an enabled RAM range below 2^32 is changed |
| TlbStores.DeviceStoresExact | tinyemu/iomem.h:105-115 | for all registers and every map, a device's store keeps all coherent states coherent if and only if every byte reached through a walk is reached as before |
| TlbStores.StoresExact | tinyemu/riscv_cpu_priv.h:269-281 | for all registers and every map, a store keeps all coherent states coherent if and only if it reaches no RAM, or every byte reached through a walk is reached as before, but for a page whose write entry the store replaces |
| MemoryBytes.InsertedBytes | tinyemu/riscv_cpu_priv.h:269-281 | a store into a word replaces the bytes stored and keeps the others |
| MemoryBytes.StoredBytes | tinyemu/riscv_cpu_priv.h:269-281 | an aligned store puts its bytes in place and changes no other byte of RAM |
| MemoryBytes.LoadedBytes | tinyemu/riscv_cpu_priv.h:253-267 | an aligned load is the number whose bytes are those of RAM, lowest first |
| MemoryBytes.LoadAfterStore | tinyemu/riscv_cpu_priv.h:252-281 | a load gives back what was stored at the same place, cut to its size |
| MemoryBytes.ReachedInWord | tinyemu/iomem.c:80-127 | what an aligned access reaches lies in one word of a range that is there |
| MemoryBytes.RunBacked | tinyemu/iomem.c:80-127 | no run makes a RAM range larger than its memory |
| DirtyTracking.HitNoted | tinyemu/riscv_cpu.c:470-474 | an entry of the write TLB is on a page already marked dirty |
| DirtyTracking.TakeNoted | tinyemu/iomem.c:130-156 | taking the dirty pages of a range drops the write entries into it |
| DirtyTracking.StepNoted | tinyemu/iomem.c:130-232 | every event keeps every page stored to marked |
| DirtyTracking.RunNoted | tinyemu/iomem.c:130-232 | so does every run |
| DirtyTracking.NoStoreIsMissed | tinyemu/iomem.h:105-115 | after any run from reset the dirty pages of a tracked range include all that were stored to since they were last taken |
| DirtyBitmap.WordsWith | tinyemu/iomem.h:105-115 | setting or clearing a page's bit in its word changes that page and no other |
| DirtyBitmap.DirtyBits.constructor | tinyemu/iomem.c:112-127 | two bitmaps with a bit for every page, none set |
| DirtyBitmap.DirtyBits.Mark | tinyemu/iomem.h:105-115 | the set of marked pages gains the page |
| DirtyBitmap.DirtyBits.Clear | tinyemu/iomem.c:159-177 | it loses the page, and TLB entries have to go exactly if it had it |
| DirtyBitmap.DirtyBits.Take | tinyemu/iomem.c:130-156 | the bitmap returned shows exactly the pages marked, marking goes on in the other one from none, and TLB entries have to go exactly if there were any |
| Simplefb.LinesOfPage | tinyemu/simplefb.c:70-73 | the lines taken for a dirty page are exactly those on the screen that have a byte in it |
| Simplefb.PageTaken | tinyemu/simplefb.c:70-86 | one dirty page extends the pending rectangle or starts a new one, and no line is dropped |
| Simplefb.TracksTaken | tinyemu/simplefb.c:70-86 | one dirty page keeps it exact whether a rectangle of negative height is pending or has been passed |
| Simplefb.RestStep | tinyemu/simplefb.c:62-68 | consuming the bits of a word from the lowest on |
| Simplefb.Refresh | tinyemu/simplefb.c:48-96 | every line on the screen with a byte in a dirty page is in a rectangle passed to redraw_func; rectangles that start on the screen end on it; one has negative height if and only if the dirty pages spill below the screen |
| Simplefb.RefreshAfter | tinyemu/simplefb.c:48-96 | from reset, after any calls of Cpu.Memory, every line on the screen that lies in a page stored to since the framebuffer's bitmap was last taken is redrawn from that bitmap, and it is taken |
| Simplefb.BelowTheScreen | tinyemu/simplefb.c:38-117 | a dirty last page of a framebuffer for 800 by 600 pixels makes a refresh pass a rectangle of negative height |
| Cpu.FlushTlb | tinyemu/riscv_cpu.c:587-596 | every entry becomes unused |
| Cpu.FlushWriteRange | tinyemu/riscv_cpu.c:609-626 | exactly the entries into the given bytes become unused |
| Cpu.GetRange | tinyemu/iomem.c:68-78 | the first range that contains the address |
| Cpu.CheckLeaf | tinyemu/riscv_cpu.c:256-274 | the permission checks are the predicate that PageTables.MappedPage spells out bit by bit |
| Cpu.Memory.GetPhysAddr | tinyemu/riscv_cpu.c:188-294 | the loop over levels is the walk whose outcome PageTables.MappedPage, MappedSuperpage and NotMapped give, accessed and dirty bits set as they say |
| Cpu.Memory.SetDirtyBit | tinyemu/iomem.h:105-115 | a page of the framebuffer is marked in its bitmap exactly as the state machine notes it |
| Cpu.Memory.SlowAccess | tinyemu/riscv_cpu.c:297-566 | the new state and the byte found are those of the slow access on values |
| Cpu.Memory.Read | tinyemu/riscv_cpu_priv.h:253-267 | an aligned load is the load event, and delivers the bytes at the place the access uses |
| Cpu.Memory.Write | tinyemu/riscv_cpu_priv.h:269-281 | an aligned store is the store event |
| Cpu.Memory.FetchWord | tinyemu/riscv_cpu.c:569-585 | a fetch is the fetch event |
| Cpu.Memory.WriteCsr | tinyemu/riscv_cpu.c:881-956 | writes to mstatus, sstatus and satp are their events |
| Cpu.Memory.RaiseException | tinyemu/riscv_cpu.c:1042-1120 | a trap is the trap event |
| Cpu.Memory.ReturnFromTrap | tinyemu/riscv_cpu.c:1127-1157 | sret and mret are the return events |
| Cpu.Memory.StoreFromDevice | tinyemu/iomem.c:245-255 | a device's store to RAM is its event |
| Cpu.Memory.TakeDirtyBits | tinyemu/iomem.c:130-156 | the pages returned are the dirty ones, which are forgotten; the framebuffer's bitmap shows them |
| Cpu.Memory.ClearDirtyBit | tinyemu/iomem.c:159-177 | one page is forgotten, in the framebuffer's bitmap too |
| Cpu.Memory.SetRangeAddr | tinyemu/iomem.c:208-232 | moving a range is its event |
| Cpu.Memory.Play | tinyemu/riscv_cpu.c:297-626 | any sequence of calls is the run of their events |
| Cpu.Memory.LoadAfter | tinyemu/riscv_cpu_priv.h:252-267 | from reset, after any calls that leave no TLB outdated, a load delivers exactly the bytes of RAM that a fresh walk leads to, and nothing exactly if it leads nowhere |
| Cbc.RoundTrip | tinyemu/aes.c:1272-1321 | CBC decryption recovers what was encrypted, for any invertible block cipher |
| Cbc.DecryptedBlock | tinyemu/aes.c:1302-1312 | every block is the inverse cipher of its ciphertext combined with the ciphertext before it |
| Cbc.DecryptedParts | tinyemu/aes.c:1302-1312 | decrypting in two stretches chained through the last ciphertext block is decrypting at once |
| Cbc.DecryptBlock | tinyemu/aes.c:1304-1308 | one block in place, and the chaining value for the next |
| Cbc.DecryptInPlace | tinyemu/aes.c:1302-1312 | the buffer is decrypted in place, what lies behind it untouched, the vector left at the last ciphertext block |
| DecryptFile.BodyReleased | tinyemu/fs_wget.c:375-391 | a full buffer is decrypted but for its last block |
| DecryptFile.BodyEnds | tinyemu/fs_wget.c:402-424 | decrypting what is held and dropping the padding completes the file |
| DecryptFile.UnpaddedExactly | tinyemu/fs_wget.c:414-421 | what is dropped at the end is one to 16 bytes, exactly as many as the last one tells |
| DecryptFile.FileRoundTrip | tinyemu/fs_wget.c:356-424 | a file encrypted with padding, for any message, vector and invertible cipher, decrypts to the message |
| DecryptFile.Decryptor.Feed | tinyemu/fs_wget.c:356-399 | a chunk of any size extends the stream; it fails exactly on a complete header with the wrong magic number |
| DecryptFile.Decryptor.Flush | tinyemu/fs_wget.c:402-424 | what has been written is then the decryption of the whole stream without its padding, or it fails exactly when there is none |
| DecryptFile.DecryptChunks | tinyemu/fs_wget.c:356-424 | for every way of cutting a stream the output is that of the one-shot definition, and the message if the stream is an encrypted file |
| Sha256Logic.ChSame | tinyemu/sha256.c:50-50 | the choice function as coded is that of FIPS 180-4 |
| Sha256Logic.MajSame | tinyemu/sha256.c:51-51 | the majority function as coded is that of FIPS 180-4 |
| Sha256Values.BigEndianIs | tinyemu/sha256.c:74-76 | the number that the four bytes of a message word are read as, the first byte counting most |
| Sha256Values.WordBytesIs | tinyemu/sha256.c:279-282 | the four bytes that a word is written as stand for it in that order |
| Sha256Values.LengthIs | tinyemu/sha256.c:275-277 | so do the eight bytes of the length |
| Sha256Values.RotrBit | tinyemu/sha256.c:19-19 | every bit of a rotated word |
| Sha256Values.CubeRoots1 | tinyemu/sha256.c:32-36 | the first 16 constants are the first 32 fraction bits of the cube roots of the first primes |
| Sha256Values.CubeRoots2 | tinyemu/sha256.c:36-39 | the next 16 |
| Sha256Values.CubeRoots3 | tinyemu/sha256.c:39-42 | the next 16 |
| Sha256Values.CubeRoots4 | tinyemu/sha256.c:42-45 | the last 16 |
| Sha256Values.SquareRoots | tinyemu/sha256.c:197-204 | the initial hash value, likewise by square roots |
| Sha256Example.HashAbc | tinyemu/sha256.c:60-286 | the digest of "abc", by the schedule and the 64 rounds computed one by one |
| Sha256.FillSchedule | tinyemu/sha256.c:71-81 | the array is the message schedule |
| Sha256.RolledRounds | tinyemu/sha256.c:84-95 | the rolled loop runs the 64 rounds |
| Sha256.EightRounds | tinyemu/sha256.c:97-110 | eight unrolled rounds with renamed registers are eight rounds |
| Sha256.UnrolledRounds | tinyemu/sha256.c:97-166 | the unrolled form runs the same 64 rounds |
| Sha256.Compress | tinyemu/sha256.c:60-176 | either form adds the compression of the block to the state |
| Sha256Stream.HashBlocksSnoc | tinyemu/sha256.c:217-235 | hashing one more block at the end is one more compression |
| Sha256Stream.PaddedParts | tinyemu/sha256.c:252-277 | the padding that Final writes, in one or two blocks, is that of FIPS 180-4 section 5.1.1 |
| Sha256Stream.Context.Update | tinyemu/sha256.c:207-235 | the context goes on to stand for the stream with the chunk appended |
| Sha256Stream.Context.Final | tinyemu/sha256.c:243-286 | the digest is the hash of the stream |
| Sha256Stream.HashChunks | tinyemu/sha256.c:193-286 | any list of updates gives the hash of the concatenation |
| BlockDevice.FindBlock | tinyemu/block_net.c:117-134 | the block is found exactly if it is cached and is then moved to the front of the list, the others keeping their order |
| BlockDevice.AddBlock | tinyemu/block_net.c:136-168 | the new block is first and loading; loaded blocks are dropped from the least recently used one on, no more than needed, and loading ones never; the limit holds unless all are loading |
| BlockDevice.AllocatedAlike | tinyemu/block_net.c:299-317 | giving a cluster its part of the image changes nothing that is read |
| BlockDevice.ClusterWritten | tinyemu/block_net.c:275-286 | writing inside a cluster is writing to the flat disk |
| BlockDevice.SmallBlocksUnshadowed | tinyemu/block_net.c:288-323 | with blocks of one cluster no written sector is shadowed |
| BlockDevice.OneClusterUnshadowed | tinyemu/block_net.c:288-323 | nor is one in a read inside one cluster |
| BlockDevice.Device.constructor | tinyemu/block_net.c:404-531 | nothing cached, nothing written: the disk is the image |
| BlockDevice.Device.Prefetch | tinyemu/block_net.c:200-237 | blocks neither cached nor loading start to load |
| BlockDevice.Device.LookUp | tinyemu/block_net.c:291-328 | a block that is not cached starts to load and is waited for |
| BlockDevice.Device.Allocate | tinyemu/block_net.c:299-317 | copy on write keeps the disk |
| BlockDevice.Device.BlockRound | tinyemu/block_net.c:287-330 | one round on an unwritten sector makes progress or waits for a loading block |
| BlockDevice.AtHandCount | tinyemu/block_net.c:262-339 | the number of sectors at hand before the first one that is not is determined by those sectors |
| BlockDevice.SomeNotAtHand | tinyemu/block_net.c:262-339 | it is less than the request if and only if some sector of the request is not at hand |
| BlockDevice.Device.Round | tinyemu/block_net.c:262-330 | one round waits exactly where the next sector is neither written nor in a loaded block, and else deals with sectors at hand, after which the same sectors are at hand as before |
| BlockDevice.Device.ReadWrite | tinyemu/block_net.c:262-339 | the loop ends with the request done, or waiting at the first sector that was not at hand when it began; the callback is called exactly on asynchronous completion |
| BlockDevice.Device.Submit | tinyemu/block_net.c:370-402 | a request starts on the disk as it is, and waits if and only if some sector of it is not at hand before the call |
| BlockDevice.Device.Loaded | tinyemu/block_net.c:341-354 | a load that completes continues exactly the request waiting for it |
| BlockDevice.Device.Completed | tinyemu/block_net.c:262-354 | a completed write has put its buffer on the flat disk; a completed read returns, sector by sector, the disk or, exactly where shadowed, the image |
| BlockDevice.Device.ReadsFlat | tinyemu/block_net.c:262-354 | with blocks of one cluster, or within one cluster, a completed read is the flat disk |
| BlockDevice.Device.FlatExactly | tinyemu/block_net.c:262-354 | a completed read is the flat disk if and only if every shadowed sector of it is the same in the image |
| BlockDevice.Device.Reuse | tinyemu/block_net.c:370-402 | a waiting write goes on from whatever its buffer then holds |
| BlockDevice.StaleRead | tinyemu/block_net.c:288-323 | for any image of one block larger than a cluster and any data written to its second cluster, a read of the block returns the image while the disk holds the data |
| BlockDevice.Serve | tinyemu/block_net.c:262-402 | for any interleaving of requests and loads, a request is taken if and only if it fits the disk and all taken before have finished; every taken request finishes when it is taken or with a load, in order, and every read (in blocks of one cluster, or inside one cluster) returns the image with all earlier writes |
| Virtqueue.MemcpyFromRam | tinyemu/virtio.c:333-350 | the page-by-page copy is the bytes at the addresses up to the first page that is no RAM, the rest of the buffer untouched; it fails exactly if there is such a page |
| Virtqueue.MemcpyToRam | tinyemu/virtio.c:352-369 | the page-by-page copy stores the bytes at the addresses up to the first page that is no RAM and nowhere else; it fails exactly if there is such a page |
| Virtqueue.StoreThenLoad | tinyemu/virtio.c:333-369 | what is stored at distinct addresses is what is loaded from them |
| Virtqueue.GetDescRwSize | tinyemu/virtio.c:480-515 | the sizes of the readable and the writable part, or failure exactly if a readable buffer follows a writable one |
| Virtqueue.FindWritable | tinyemu/virtio.c:392-405 | the first loop finds the first writable buffer |
| Virtqueue.FindOffset | tinyemu/virtio.c:407-418 | the second loop finds the buffer and place at the offset |
| Virtqueue.CopyFrom | tinyemu/virtio.c:420-441 | the third loop copies buffer after buffer |
| Virtqueue.MemcpyQueue | tinyemu/virtio.c:380-442 | the copy at (offset, count) is that slice of the chain's leading readable, or its writable, bytes, if they are RAM, and changes nothing else in any case; it succeeds exactly when it fits, RAM or not, and terminates on every chain without cycles |
| VirtioBlock.SlotsDiffer | tinyemu/virtio.c:461-478 | numbers less than a ring apart have different slots |
| VirtioBlock.Queue.MakeAvailable | tinyemu/virtio.c:518-544 | the driver's side: one more request in the available ring |
| VirtioBlock.Queue.Consume | tinyemu/virtio.c:461-478 | one more used-ring entry, the index growing by one mod 2^16 |
| VirtioBlock.Queue.EndRequest | tinyemu/virtio.c:1016-1048 | exactly one entry, for the request in flight |
| VirtioBlock.Queue.Receive | tinyemu/virtio.c:1064-1115 | a request is refused while one is in flight, else answered or in flight |
| VirtioBlock.Queue.TakeNext | tinyemu/virtio.c:518-544 | one round: a chain out of order is skipped also while a request is in flight, any other is refused then |
| VirtioBlock.Queue.Notify | tinyemu/virtio.c:518-544 | requests are taken in order, chains out of order skipped, until none are left or one is in flight and the next is in order; answers given before stay |
| VirtioBlock.Queue.Complete | tinyemu/virtio.c:1050-1061 | the request in flight is answered next, and waiting ones are taken |
| VirtioBlock.OneAnswerEach | tinyemu/virtio.c:461-544 | every IN and OUT request taken and not in flight has exactly one used-ring entry, in available-ring order |
| VirtioDisk.SectorsOfConcat | tinyemu/virtio.c:1064-1115 | sectors put one after the other are the sectors of that buffer |
| VirtioDisk.HeaderRead | tinyemu/virtio.c:999-1003 | from the 16 bytes of any type, priority and sector, type and sector are read back |
| VirtioDisk.StoredIsWritten | tinyemu/virtio.c:380-442 | bytes stored at distinct addresses are there afterwards, and nothing else has changed |
| VirtioDisk.VirtioBlockDevice.constructor | tinyemu/virtio.c:1117-1133 | a device with no request in progress |
| VirtioDisk.VirtioBlockDevice.EndRequest | tinyemu/virtio.c:1016-1048 | the chain's writable bytes hold the sectors read, and the status at their end, or the status alone after a write; nothing else has changed, and the used entry counts them |
| VirtioDisk.VirtioBlockDevice.Receive | tinyemu/virtio.c:1064-1115 | the header in the chain's readable bytes decides: refused while a request is in progress, ignored if not a read or write, else begun with its sector and count on the disk as it is, waiting if and only if some sector is not at hand; of a write's data the sectors at hand before the first one that is not are given to the device, and else what the freed buffer holds; a read without a writable byte writes before its buffer, a write without one fails an assertion, a request past the end of the disk is passed on |
| VirtioDisk.VirtioBlockDevice.Take | tinyemu/virtio.c:518-544 | the same for any chain, those out of order being skipped |
| VirtioDisk.VirtioBlockDevice.Finish | tinyemu/virtio.c:1050-1061 | a finished read leaves the disk's sectors (in blocks of one cluster, or inside one cluster) and the status in the chain, a finished write its buffer on the disk, each one used entry |
| VirtioDisk.VirtioBlockDevice.Loaded | tinyemu/virtio.c:1050-1061 | a load that completes finishes exactly the request that waited for it, and otherwise changes neither memory nor used entries |
| VirtioDisk.VirtioBlockDevice.GuestStores | tinyemu/virtio.c:1050-1061 | the guest may change its memory while a request waits |
| VirtioDisk.WriteExact | tinyemu/virtio.c:1096-1110 | the data of a write reach the disk, whatever the freed buffer comes to hold, if and only if before the call every sector of the request is at hand |
| VirtioDisk.LostWrite | tinyemu/virtio.c:1096-1110 | for any image of one block, any sector of it, any data and any later content of the freed buffer: a write that is answered as successful and leaves that content on the disk |
| VirtioRuns.TakeOne | tinyemu/virtio.c:518-544 | one chain more is taken, with the memory as it is, and a request is answered at once if and only if all its sectors are at hand; or what stands against it |
| VirtioRuns.LoadOne | tinyemu/virtio.c:1050-1061 | a load has happened, with the answer to the request in progress exactly if it is no longer in progress |
| VirtioRuns.NotifyQueue | tinyemu/virtio.c:518-544 | chains have been taken one after the other until none is left, or the next one has to wait or cannot be served |
| VirtioRuns.Serve | tinyemu/virtio.c:518-1115 | any interleaving of chains made available, notifications, loads and changes to guest memory has a history, step by step, from the memory, used ring, disk and blocks before to those after: chains are taken in the memory of the moment, each answer changes its chain's writable bytes and adds a used entry, nothing else changes memory but the guest, and the queue is gone through on every notification and answered load; the run ends early only there, at a chain without room for a status or for sectors past the disk |
| VirtioRuns.RunKeeps | tinyemu/virtio.c:518-1115 | in every such history the chains taken are the first ones made available; every request among them has one used entry, in order, but for the last one while it is in progress, its data written being those at hand before the first sector that is not, and else the freed buffer's; and the disk is the one before with all writes answered |
| VirtioRuns.RunFits | tinyemu/virtio.c:1050-1061 | a request in progress always lacks a sector, so one is answered as soon as all its sectors are at hand; otherwise the clusters and the image make up the disk |
| VirtioRuns.ReadAnswered | tinyemu/virtio.c:1016-1048 | at the happening in the history that gives the k-th answer, if to a read (in blocks of one cluster, or inside one cluster): the used ring gets its entry, the chain's writable bytes hold right afterwards the sectors of the disk with exactly the writes answered before, and the status, and no other byte of memory changes |
| FsGraph.AliveExactlyWhileUsed | tinyemu/fs_net.c:329-401 | between operations an inode is alive exactly while it is the root, an entry names it or a file is on it: nothing points to a released inode |
| FsGraph.NamedAlive | tinyemu/fs_net.c:450-468 | whatever an entry names is alive and counted |
| FsGraph.OpenAlive | tinyemu/fs_net.c:586-594 | whatever a file is on is alive and counted as open |
| FsGraph.UnnamedIsEmpty | tinyemu/fs_net.c:375-377 | a directory that nothing names is empty, as releasing it asserts |
| FsGraph.BlocksHold | tinyemu/fs_net.c:312-315 | as few blocks as hold the bytes |
| FsGraph.Replaced | tinyemu/fs_net.c:312-468 | replacing one inode keeps the whole invariant if its entries, its counts and the accounting move together |
| FsNet.LastOpenIsEmpty | tinyemu/fs_net.c:375-377 | a directory that only files use is empty, unless it has got entries since it was emptied or lost its "." |
| FsNet.EntriesCounted | tinyemu/fs_net.c:387-393 | the entries of one directory never make up all references to another one that has its own entry "." |
| FsNet.FlushAbortsUntidy | tinyemu/fs_net.c:568-577 | emptying a directory fails the assertion of inode_free only after some directory got entries when it had been emptied, or lost its "." |
| FsNet.EntryFollowed | tinyemu/fs_net.c:1433-1455 | however entries are told apart: where an entry stands once another one has been freed, and it is nowhere if and only if it is the one freed |
| FsNet.FoundFirst | tinyemu/fs_net.c:1433-1455 | of the two entries that a rename looks up, freeing the second leaves the first if and only if directories or names differ; so the rename uses a freed entry if and only if they are the same and the entry names no directory |
| FsNet.DeletedExactly | tinyemu/fs_net.c:579-584 | deleting a file keeps the invariant if and only if no load is to open it or its inode is released with it |
| FsRuns.OpenThenDelete | tinyemu/fs_net.c:579-584 | a run in which a deleted file is still to be opened by a load |
| FsRuns.OpenThenSetUrl | tinyemu/fs_net.c:1674-1701 | a run after which an open file has no content |
| FsRuns.RenameOntoItself | tinyemu/fs_net.c:1433-1455 | a run in which a rename uses a freed entry: both names find the same one, it is gone, and its reference is still counted |
| FsRuns.UnlinkThenAdd | tinyemu/fs_net.c:375-377 | a run in which deleting a file fails the assertion of inode_free: the directory it was on was unlinked and has got an entry since, and nothing uses it any more |
| FsRuns.UnlinkForeignDots | tinyemu/fs_net.c:568-577 | a run in which unlinking a directory fails it: "." and ".." of the directory are the last names of another one with an entry |
| FsServe.Serve | tinyemu/fs_net.c:579-1475 | any list of requests, from any consistent state: each is answered, with the state it leaves, from one consistent state to the next, up to the first one that goes wrong, if there is one: it fails an assertion, uses freed memory, leaves a load to a freed file or takes the content of an open file away |
| FsServe.RunAlive | tinyemu/fs_net.c:329-401 | at every moment of such a run an inode is alive exactly while it is the root, named or open |
| FsNet.SetUrlExactly | tinyemu/fs_net.c:1674-1701 | making an empty local file one to be loaded keeps the invariant if and only if it is not open |
| FsNet.FsNet.constructor | tinyemu/fs_net.c:1524-1578 | a root with its entries "." and "..", counted three times |
| FsNet.FsNet.IncRef | tinyemu/fs_net.c:317-321 | one more reference, held |
| FsNet.FsNet.IncOpen | tinyemu/fs_net.c:323-327 | one more open, held |
| FsNet.FsNet.InodeFree | tinyemu/fs_net.c:329-385 | an unused inode, if a directory an empty one, is released: blocks, inode count and cache follow |
| FsNet.FsNet.DecRef | tinyemu/fs_net.c:387-393 | one reference less, the inode released exactly with its last use; the invariant is kept |
| FsNet.FsNet.DecOpen | tinyemu/fs_net.c:395-401 | the same for an open |
| FsNet.FsNet.InodeNew | tinyemu/fs_net.c:411-446 | a new inode with one reference, held |
| FsNet.FsNet.DirAdd | tinyemu/fs_net.c:450-468 | an entry at the end of the list stores a held reference; the size grows by 33 and the length of the name, and blocks follow |
| FsNet.FsNet.DirDeleteNoDecref | tinyemu/fs_net.c:545-558 | an entry goes and its reference is held; size and blocks follow |
| FsNet.FsNet.DirDelete | tinyemu/fs_net.c:560-566 | an entry goes with its reference |
| FsNet.FsNet.Search | tinyemu/fs_net.c:470-484 | the first entry of that name, or none exactly if there is none |
| FsNet.FsNet.IsEmptyDir | tinyemu/fs_net.c:531-543 | whether there is nothing but "." and ".." |
| FsNet.FsNet.FlushDir | tinyemu/fs_net.c:568-577 | it fails the assertion of inode_free if and only if entries of the directory are the last names of another directory that has entries; else every entry's reference is dropped, the directory is empty, and it and the directory naming it survive |
| FsNet.FsNet.FidCreate | tinyemu/fs_net.c:586-594 | a new file on the inode |
| FsNet.FsNet.Attach | tinyemu/fs_net.c:621-629 | a new file on the root |
| FsNet.FsNet.Walk | tinyemu/fs_net.c:631-648 | as many names are followed as can be, and the new file is where they lead |
| FsNet.FsNet.Mkdir | tinyemu/fs_net.c:650-666 | its answer, and the whole new state: the directory, its two entries, the entry naming it, all counts; also in a directory that has been unlinked |
| FsNet.FsNet.Create | tinyemu/fs_net.c:1082-1105 | its answer, and the whole new state: an empty local file, open, which the FSFile has moved to; it fails the assertion of inode_free if and only if the FSFile was the last use of the directory |
| FsNet.FsNet.MakeNode | tinyemu/fs_net.c:1382-1419 | its answer, and the whole new state for a symbolic link or node; it fails the assertion of inode_dir_add if and only if the target is no directory |
| FsNet.FsNet.Link | tinyemu/fs_net.c:1370-1380 | its answer, with when it fails that assertion, and a second name with its count |
| FsNet.FsNet.RenameAt | tinyemu/fs_net.c:1433-1455 | its answer; it uses a freed entry if and only if a file is renamed onto itself, and fails that assertion if and only if there is something to be moved and the target is no directory; else the entry has moved, a non-directory of the new name has gone, nothing else has changed, and the invariant is kept |
| FsNet.FsNet.UnlinkAt | tinyemu/fs_net.c:1457-1475 | its answer exactly, with when it fails the assertion of inode_free; else the entry has gone, a directory it named is empty, nothing else has changed, and the invariant is kept |
| FsNet.FsNet.Delete | tinyemu/fs_net.c:579-584 | it fails the assertion of inode_free if and only if the file is the last use of a directory that has entries; else the file is closed and its inode released exactly with its last use, and the invariant is kept exactly if no load is left to open the file |
| FsNet.FsNet.Truncate | tinyemu/fs_net.c:1185-1244 | its answer exactly; content cut or zero-extended, a loaded file becoming local, only the size of an unloaded one changing; the allocation as the policy has it; blocks and cache follow |
| FsNet.FsNet.Write | tinyemu/fs_net.c:1246-1281 | its answer exactly; the content is the bytes written over the old content, gaps filled with zeros, and the file is local |
| FsNet.FsNet.Read | tinyemu/fs_net.c:1162-1183 | its answer exactly: how many bytes, none from the end of the file on, and each of them that of the buffer; an opened file always has its content |
| FsNet.Play | tinyemu/fs_net.c:1162-1281 | any sequence of writes, truncates and reads on an open file behaves as on a byte sequence, only growing operations failing, for want of space |
| FsNet.FsNet.TrimCache | tinyemu/fs_net.c:670-697 | files are unloaded from the least recently used one on, no more than needed for the room asked for, and never open ones |
| FsNet.FsNet.StartLoad | tinyemu/fs_net.c:837-869 | the file is loading, with room for all its bytes |
| FsNet.FsNet.LoadBytes | tinyemu/fs_net.c:709-722 | bytes that come are appended to those received, extra ones ignored |
| FsNet.FsNet.SetLoaded | tinyemu/fs_net.c:724-745 | the file is loaded and first in the cache, and the waiting open completes |
| FsNet.FsNet.SetError | tinyemu/fs_net.c:747-758 | the file is unloaded again |
| FsNet.FsNet.Receive | tinyemu/fs_net.c:799-834 | a load ends loaded, with exactly the bytes received, or unloaded if it failed or came short |
| FsNet.FsNet.SetUrl | tinyemu/fs_net.c:1674-1701 | an empty local file becomes one to be loaded, its blocks accounted; the invariant is kept exactly if it was not open |
| FsNet.FsNet.OpenRegular | tinyemu/fs_net.c:1030-1078 | open at once, or when the load ends, or refused if another open waits |
| FsNet.FsNet.MoveToFront | tinyemu/fs_net.c:1066-1070 | the file is the most recently used one |
| FsNet.FsNet.Open | tinyemu/fs_net.c:1008-1080 | its answer exactly; an opened file is ready, with its content or emptied as asked |
| FsNet.FsNet.Close | tinyemu/fs_net.c:1283-1290 | the file is not open |
| FileBytes.WrittenAt | tinyemu/fs_net.c:1246-1281 | every byte after a write: the one written, the old one, or zero in a gap |
| FileBytes.ReadAt | tinyemu/fs_net.c:1162-1183 | how many bytes a read delivers, and each of them |
| FileBytes.ReadAfterWrite | tinyemu/fs_net.c:1162-1281 | a read of what was written delivers it |
| FileBytes.ReadElsewhere | tinyemu/fs_net.c:1162-1281 | a read that meets no written byte delivers what it did before, and zeros in a gap |
| FileBytes.BufferResize | tinyemu/fs_net.c:283-292 | the bytes that fit are kept; nothing is promised of new ones |
| FileBytes.CapacityCovers | tinyemu/fs_net.c:1211-1228 | the growing and shrinking policy always covers the size; a buffer grows by a quarter or to what is asked for, and is cut by a fifth exactly when that leaves enough |
| FileBytes.GrownContent | tinyemu/fs_net.c:1211-1221 | growing zero-extends the file, whatever was in the buffer behind it |
| FileBytes.ShrunkContent | tinyemu/fs_net.c:1222-1228 | shrinking cuts the file |
| FileBytes.WrittenContent | tinyemu/fs_net.c:1265-1280 | writing into the buffer is writing to the file |
| FsNet.ResizeData | tinyemu/fs_net.c:1211-1228 | the buffer work of a truncate is the file cut or zero-extended |
| FileListText.DigitsParsed | tinyemu/fs_utils.c:190-224 | printed digits are read back, in any base |
| FileListText.DecParsed | tinyemu/fs_utils.c:216-224 | a printed decimal number is read back in base 0, 0 included |
| FileListText.Oct6Parsed | tinyemu/fs_utils.c:190-201 | a mode printed with leading zeros is read back in base 8 |
| FileListText.HexParsed | tinyemu/fs_utils.c:250-253 | a printed file id is read back in base 16 |
| FileListText.QuotedParsed | tinyemu/fs_utils.c:134-177 | an escaped name is read back, or refused exactly if it does not fit the buffer |
| FileListText.PlainNameParsed | tinyemu/fs_utils.c:178-184 | so is a name without quotes |
| FileListText.NameRoundTrip | tinyemu/build_filelist.c:41-68 | exactly which names survive print_str and parse_fname: those that fit, do not start with a quote unless quoted, and are not empty except at the end of a line |
| FileListText.FractionParsed | tinyemu/fs_utils.c:234-244 | a printed fraction without its final zeros is read back exactly |
| FileListText.TimeParsed | tinyemu/fs_utils.c:226-248 | so is a modification time |
| FileList.LineParsed | tinyemu/fs_net.c:1926-2013 | a printed line is read back as its item |
| FileList.RoundTrip | tinyemu/fs_net.c:1899-2026 | parsing the listing of any tree rebuilds the tree, file ids given out in order |
| FileList.ListingIsText | tinyemu/build_filelist.c:116-201 | a listing has no NUL that would end it early |
| FileListExample.Listing | tinyemu/build_filelist.c:41-201 | the text of a list with each kind of line, character by character |
| FileListIo.ScanState.PutStr | tinyemu/build_filelist.c:41-68 | appends the name, quoted exactly if it has to be |
| FileListIo.ScanState.PutFraction | tinyemu/build_filelist.c:159-166 | the digit loop on a shifted remainder prints the fraction's digits |
| FileListIo.ScanState.PutLine | tinyemu/build_filelist.c:144-192 | appends an item's line and gives out a file id exactly for a file that is not empty |
| FileListIo.ScanState.ScanDir | tinyemu/build_filelist.c:116-201 | appends the listing of a directory tree |
| FileListIo.SkipLineAt | tinyemu/fs_utils.c:74-83 | the cursor is behind the end of the line |
| FileListIo.ParseQuotedAt | tinyemu/fs_utils.c:134-177 | the cursor loop reads a quoted name as the recursive parser does |
| FileListIo.ParseFname | tinyemu/fs_utils.c:122-188 | the cursor loops read a name as the recursive parser does |
| FileListIo.ParseTimeAt | tinyemu/fs_utils.c:226-248 | the digit loop reads a time as the recursive parser does |
| FileListIo.ParseLineAt | tinyemu/fs_net.c:1926-2013 | one line, or failure where any part fails |
| FileListIo.FilelistLoadRec | tinyemu/fs_net.c:1899-2026 | the loop with recursion into directories is the parser of the round trip |
| FsLoad.LoadTree | tinyemu/fs_net.c:1899-2026 | the inodes made for a parsed tree show exactly that tree, nothing else has changed, and counts, blocks and cache are right |
| FsLoad.LoadDirectory | tinyemu/fs_net.c:1964-2022 | a directory item becomes a directory with ".", ".." and its items |
| FsLoad.LoadLeaf | tinyemu/fs_net.c:1943-1996 | any other item becomes its inode, a file that is not empty being left to be loaded |
| FileListIo.PrintAndLoad | tinyemu/build_filelist.c:116-201 | printing a tree and loading the text gives the tree |

## Left out

- Instruction decoding, the interpreter loop and the CSRs other than mstatus, sstatus and satp; of mstatus the floating-point and extension state, which no memory access depends on.
- Sv39 and Sv48, misaligned superpages, unaligned accesses (the source splits them into aligned ones), and the values of MMIO accesses.
- Cpu.Memory.WriteCsr: of mstatus only the fields in PageTables.StatusBits are kept.
- TlbCoherence.AccessesAreFresh: assumes that nothing has outdated the TLBs since the last flush.
- DirtyTracking.NoStoreIsMissed: accessed and dirty bits set by the page walk itself are not stores; the source does not note them either.
- Cpu.Memory.SetDirtyBit: one range, the framebuffer's, has its two bitmaps; of other ranges whose stores are noted the set of pages is kept.
- NaN payloads and fclass.
- IntegerConversion.ToInteger: integer widths up to the exponent bias of the format plus one, which all instances satisfy.
- Cbc: AES itself is an arbitrary block cipher; the partial-block branches of AES_cbc_encrypt are never used by the decryptor.
- DecryptFile.Decryptor.Feed: write_cb is assumed not to fail.
- Sha256Stream.HashChunks: chunks below 2^31 bytes and fewer than 2^64 bits in all, as the source's types demand.
- Cyclic descriptor chains, which the source would follow forever, descriptor tables outside RAM, and a driver that changes a chain while it is in use.
- Virtqueue.MemcpyQueue: for a slice that leaves RAM it does not say which bytes before a missing page are copied; the source ignores these failures.
- VirtioBlock.Queue.EndRequest: what is written to the chain is the subject of VirtioDisk; here a request is what it asks for.
- VirtioBlock.Queue.Receive: the request that a chain's header asks for is given; VirtioDisk reads it from memory.
- VirtioBlock.Queue.Notify: which requests complete later is given; in VirtioRuns the block device decides it.
- Virtqueue.GetDescRwSize: descriptor lengths are unbounded; the source adds them in 32-bit ints, which lengths of 2^31 and more wrap. The same for Virtqueue.MemcpyQueue.
- VirtioDisk.VirtioBlockDevice.Take: chains have distinct bytes of RAM as buffers, which the source takes for granted; what follows a write before a buffer, or an access past the end of the disk, is not modelled, and a request for no sectors beyond the end counts as one; the used ring's index arithmetic is that of VirtioBlock.
- VirtioDisk.VirtioBlockDevice.Receive: the same chains as for VirtioDisk.VirtioBlockDevice.Take.
- VirtioRuns.Serve: what a freed buffer holds is given with the chain and does not change while a write waits; which blocks the cache drops for the one awaited is left to BlockDevice.AddBlock; the used ring is a list, whose slots and index are those of VirtioBlock.
- virtio configuration space, interrupts, the other virtio devices and 9P messages.
- Failed downloads of blocks, on which the program exits; the I/O error status, which block_net.c never causes.
- Failed memory allocation; clocks, owners, modes and times of inodes other than in file lists; statfs, readdir and locks.
- FsServe.Serve: of an open and of received bytes it tells less than FsNet.FsNet.Open and FsNet.FsNet.Receive; reads change nothing and are left to FsNet.FsNet.Read.
- FsNet.FsNet.Create: the new open is counted before the old one is dropped, the other way round than in the source, which makes no difference there.
- FsNet.FsNet.FlushDir: what is left in memory after a failed assertion or the use of a freed entry is not modelled.
- FsNet.FsNet.InodeFree: base URLs, and the open information of a load that is given up, are not part of this model.
- FsNet.FsNet.Open: the preloading of other files that it triggers is left out; a preload is a load that no file waits for.
- FsNet.FsNet.Receive: encrypted files pass through the decryptor of DecryptFile first; files that come in archives are left out.
- FsNet.FsNet.SetUrl: base URLs and their reference counts are left out.
- FsNet.FsNet.Write: offsets are unbounded, where the source's 64-bit sum of offset and count could wrap.
- FsNet.FsNet: directory sizes count an entry header of 32 bytes, as on a 64-bit host; files that are command channels are left out.
- FileListIo.FilelistLoadRec: it parses to a tree, of which FsLoad.LoadTree makes inodes; the source does both at once, so that an error leaves a part of the tree behind. Header lines and the base URL "/" are left out.
- FsLoad.LoadTree: device numbers and attributes of inodes are not kept.
- FsLoad.LoadLeaf: device numbers and attributes of inodes are not kept.
- FileListIo.ScanState.ScanDir: directory contents come as a value, link targets as readlink cuts them; copying files and the quota check are left out.
- IDE, PCI, PS/2, VGA, FDT, JSON, networking, terminals and all glue code, which would only add easier members.
