# Verified core of an in-browser RISC-V machine

This project models the parts of the emulator where a mistake is hardest to see, and proves what they are for: the
floating-point library, the MMU with its caches of translations and dirty-page tables, the network block device and
file system with their caches, encrypted downloads, the WISP client, and the start/stop protocol of the browser
runtime. `dafny verify dfyconfig.toml` checks all of it.

## How the parts fit

**Floating point.** `Ieee` defines rounding on bit patterns and real numbers alone: the two neighbouring patterns of a
real, and which of them each mode picks (IEEE 754-2019, section 4.3). Such a pattern is shown to exist and to be unique.
`FloatSpec` states each operation by cases (NaN, infinity, zero) around one rounding of the exact real result, together
with the flags. `Sticky` is the bridge: a word with a sticky last bit stands for a real number if both lie on the same
side of every multiple of the rounding unit. `RoundingLaws`, `OperationLaws` and `SpecialLaws` say what those
definitions come to, over signed values, classes of words and the names of the modes; `RootSquares` and `RootLaws` say
where a square root lies by squares alone. `AddSf`, `MulSf`, `DivSf`, `SqrtSf` and `FmaSf` are the algorithms, in the
source's own steps, for every format (field widths are parameters; the source builds 32, 64 and 128 bits) and all five
modes.

**Memory.** `PageWalk` defines translation and what a walk writes; `WalkLaws` states both on the bits of the words read;
`MemAccess` defines loads and stores through it, with
unaligned accesses split as the source splits them. `TlbCpu` is the machine: its caches of translations are proved to be
indistinguishable from walking, as long as the guest keeps the fence rule (memory that is read as page table changes
only through walks). An entry is justified by a moment since the last flush; `Settled` shows that what was true then is
true now. `History` says which bytes a store writes and what memory went through since the last flush. Dirty pages are
tied to the bytes stored and to what the screen was last shown, down to the rectangles `FrameBuffer` draws.

**Storage and network.** `BlockNet` gives what a request does to the disk across suspensions. `FsTree` keeps reference
counts equal to the number of names and handles; `FsNodes` and `FsFiles` keep contents, open handles, block quota and
cache accounts, on a host of 32 or 64 bits; `FsDevice` holds the two halves together. `DecryptFile`,
`Sha256` and `Hmac` show that chunking does not matter and tie the streaming code to one-shot definitions; the block
cipher and the compression function are arbitrary functions. `Wisp` follows every packet from submission to wire.
`Lifecycle` is a state machine over all interleavings of calls, timers, listeners and awaits.

## Where the code falls short

Each of these is kept as the code has it. The members named give the exact condition, most of them beside an input that shows it.

- A block device read is cut at block boundaries, not cluster boundaries, so it can miss written data (`BlockNet.ReadsLatest`, `BlockNet.StaleRead`).
- A trap or an MRET that changes which privilege data accesses use, without changing the privilege mode, does not flush (`Control.TrapUnnoticed`, `Control.MretUnnoticed`, `Stale.TrapBreaks`, `Stale.MretBreaks`).
- The signed high product for machines without 128-bit integers is wrong when the signs differ (`MulHigh.Mulh`, `MulHigh.Mulhsu`, `MulHigh.MulhSlip`, `MulHigh.MulhsuSlip`).
- The integer square root of a double word begins below the root for some operands and then does not move (`SqrtSf.SqrtremWide`, `SqrtSf.GuessTooLow`), and in single words a sum overflows for the largest (`SqrtSf.SqrtremU`, `SqrtSf.LargestOperand`). The floating-point root passes none of these.
- Fused multiply-add does not raise invalid for infinity times zero plus a quiet NaN, which IEEE 754-2019 section 7.2 leaves open and RISC-V asks for (`FloatSpec.FmaInvalid`, `FloatSpec.FmaSilent`, `FmaSf.Fma`).
- Opening a second WISP stream for a guest orphans the first (`Wisp.OpenInverse`), and stream numbers start over after 2^32 (`Wisp.Client.OpenStream`, `Wisp.Reopened`).
- A block device accepts blocks smaller than a cluster, and then copies past their end on every write (`BlockNet.ClusterCopyFits`, `BlockNet.BlockDevice.WriteAsync`).
- Renaming a file to itself uses an entry already deleted (`FsTree.Tree.Rename`, `FsTree.RenameToItself`); moving the "." of a directory, or adding an entry to a directory that was removed, leaves an entry in a directory nobody names (`FsTree.RenamedWell`, `FsTree.Tree.MakeNode`, `FsTree.CreateInRemoved`).
- Giving a URL to a file that has an open handle takes away what the handle reads (`FsFiles.Files.SetUrl`, `FsFiles.UrlWhileOpen`); giving up a handle while its file is being loaded leaves the load with a handle that is gone, unless the file goes with it (`FsFiles.Files.DropHandle`, `FsFiles.DropWhileLoading`).
- Sizes are compared as signed words: a file that grows by half a word or more gets its size without the memory (`FsFiles.Files.Truncate`, `FsFiles.GrowByHalf`). The end of a write is computed modulo 2^64 (`FsFiles.Files.Write`, `FsFiles.WriteAtEnd`). A size on the network is cut to a word (`FsFiles.Files.SetUrl`), and rounding a size up to blocks wraps around at 2^64 (`FsNodes.BlocksHold`).
- A start listener that throws leaves a machine that counts as running and never runs (`Lifecycle.OneLiveTick`, `Lifecycle.StartLost`).
- A download into a file is reported complete although its end does not decrypt (`DecryptFile.DownloadFile`, `DecryptFile.HeaderOnly`).
- A request for sectors beyond the image is not refused (`BlockNet.BlockDevice.ReadAsync`, `BlockNet.BlockDevice.WriteAsync`).
- Making, linking or moving an entry in what is not a directory fails an assertion (`FsTree.Tree.MakeNode`, `FsTree.Tree.Link`, `FsTree.Tree.Rename`).
- Chunks of 2^31 bytes and more are not taken (`DecryptFile.Decryptor.Feed`), or never finished (`Sha256.Context.Update`).
- A file name that begins with a quote is printed in a form that is not read back (`FileNames.ReadBackIff`, `FileNames.QuoteFirst`).
- File times outside 32 bits of seconds are not read back (`FileTimes.PrintThenParse`).
- A dirty page below the screen, in the padding of the frame buffer, can give a rectangle with a negative number of rows (`FrameBuffer.Refresh`, `FrameBuffer.OffScreen`).

## Model

| member | source | states |
|---|---|---|
| `Ieee.MagMono` | reference/tinyemu/softfp_template.h:46-51 | Bit patterns without sign denote strictly increasing magnitudes, so rounding can be defined on patterns. |
| `Ieee.RoundingExists` | reference/tinyemu/softfp_template.h:108-175 | In each of the five modes every real magnitude has a correctly rounded pattern, in the sense of IEEE 754-2019 section 4.3. |
| `Ieee.RoundingUnique` | reference/tinyemu/softfp_template.h:108-175 | That pattern is unique: the definition by neighbouring patterns, written without reference to any algorithm, determines the result. |
| `Ieee.TinyIff` | reference/tinyemu/softfp_template.h:133-145 | Tininess after rounding, defined by rounding with the same precision and unbounded exponent, is decided by the significand rounded at its own scale. |
| `RoundPack.RshiftRnd` | reference/tinyemu/softfp_template.h:93-105 | Shifting right keeps the quotient and ors any lost bit into the last place, for every distance. |
| `RoundPack.RoundPackSf` | reference/tinyemu/softfp_template.h:108-175 | From a significand that carries a sticky bit, the packed word is the correct rounding of the real number it stands for (what that means for signed values in each mode is RoundingLaws.RoundsRight), and the flags added are exactly inexact, underflow (tiny after rounding) and overflow as IEEE 754-2019 section 7 defines them. |
| `RoundPack.RoundMantPicks` | reference/tinyemu/softfp_template.h:114-155 | Adding the mode's addend and shifting picks the same neighbour as comparing the discarded part with one half. |
| `RoundingLaws.RoundsRight` | reference/tinyemu/softfp_template.h:114-164 | What rounding an exact result delivers, over the values of words and by the name of the mode: RDN the greatest number not above it, RUP the least not below it, RTZ the one of them not farther from zero, RNE and RMM a nearest one with ties to the even word or away from zero; and on overflow infinity or the largest number, for each mode and sign. |
| `RoundingLaws.FlagsRight` | reference/tinyemu/softfp_template.h:133-168 | Overflow exactly when the result is too large for the mode, inexact exactly when the number delivered is not the exact result, underflow never for an exact result or one not below the normal range and always for an inexact one delivered below it. |
| `Normalize.NormalizeSf` | reference/tinyemu/softfp_template.h:178-187 | Moving the leading bit into place loses nothing: the result is the correct rounding of the real number given. |
| `Normalize.Normalize2Sf` | reference/tinyemu/softfp_template.h:191-213 | The same for a two-word significand. |
| `FloatSpec.FiniteValue` | reference/tinyemu/softfp_template.h:78-91 | The fields of a finite word give its real value, subnormals and zero included. |
| `FloatSpec.SignanIsSignaling` | reference/tinyemu/softfp_template.h:215-222 | The test for signalling NaNs accepts exactly the NaNs whose quiet bit is clear. |
| `OperationLaws.SumLaw` | reference/tinyemu/softfp_template.h:234-290 | For finite operands the sum is delivered as said by RoundingLaws, and an exact zero has the sign both operands have, or minus in RDN only. |
| `OperationLaws.ProductLaw` | reference/tinyemu/softfp_template.h:349-399 | The same for products, with the sign of an exact zero. |
| `OperationLaws.QuotientLaw` | reference/tinyemu/softfp_template.h:589-653 | The same for quotients by a number that is not zero. |
| `OperationLaws.FusedLaw` | reference/tinyemu/softfp_template.h:402-552 | The same for a product plus a number, rounded once. |
| `OperationLaws.SingleWords` | reference/tinyemu/softfp_template.h:46-91 | Which 32-bit words are one, minus two, the least positive and the least normal number, infinity, and quiet and signalling NaNs. |
| `SpecialLaws.SumSpecials` | reference/tinyemu/softfp_template.h:252-265 | Sums with NaNs and infinities, by the classes and signs of operands and result. |
| `SpecialLaws.ProductSpecials` | reference/tinyemu/softfp_template.h:363-379 | Products with NaNs, infinities and zeros. |
| `SpecialLaws.QuotientSpecials` | reference/tinyemu/softfp_template.h:603-637 | Quotients with NaNs, infinities and zeros, division by zero included. |
| `SpecialLaws.FusedSpecials` | reference/tinyemu/softfp_template.h:416-438 | Fused operations with NaNs and infinities. |
| `SpecialLaws.RootSpecials` | reference/tinyemu/softfp_template.h:730-748 | What the square root returns for NaNs, below zero, and for infinity. |
| `AddSf.Add` | reference/tinyemu/softfp_template.h:234-290 | Addition returns the correctly rounded sum of any two words and the exact flags, for finite operands also stated mode by mode over signed values: NaNs, infinities, the sign of an exact zero, cancellation and far-apart operands included. |
| `AddSf.AlignedSum` | reference/tinyemu/softfp_template.h:266-287 | Shifting the smaller operand with a sticky bit leaves a word that rounds like the exact sum or difference. |
| `AddSf.SpecialSum` | reference/tinyemu/softfp_template.h:252-265 | The branch for NaNs and infinities, which looks only at the larger operand, agrees with the specification. |
| `MulSf.NormalizeSubnormalSf` | reference/tinyemu/softfp_template.h:298-304 | A subnormal significand is brought to full width with an exponent that keeps its value. |
| `WideWords.MulHalves` | reference/tinyemu/softfp_template.h:320-343 | Multiplying by half-words with carries gives the full double-width product. |
| `MulSf.MulU` | reference/tinyemu/softfp_template.h:308-343 | High and low word together are the product. |
| `MulSf.Mul` | reference/tinyemu/softfp_template.h:349-399 | Multiplication is correctly rounded, with exact flags, for all pairs of words; for finite ones also stated mode by mode over signed values. |
| `MulSf.MulFinite` | reference/tinyemu/softfp_template.h:394-398 | Dropping the low word but for one sticky bit does not change the rounding of the product. |
| `DivSf.DivideBit` | reference/tinyemu/softfp_template.h:572-582 | One turn of the shift-and-subtract loop gives one more quotient bit, also when the shifted remainder overflows the word. |
| `DivSf.DivremU` | reference/tinyemu/softfp_template.h:567-585 | The loop computes quotient and remainder of a double word; divided by zero, a quotient of all ones. |
| `DivSf.Div` | reference/tinyemu/softfp_template.h:589-653 | Division is correctly rounded, with exact flags, division by zero included, for all pairs of words; for finite ones also stated mode by mode over signed values. |
| `SqrtSf.NewtonStep` | reference/tinyemu/softfp_template.h:705-711 | One iteration never falls below the integer root. |
| `SqrtSf.NewtonStop` | reference/tinyemu/softfp_template.h:705-711 | When the iteration stops getting smaller, the square of the last value is at most the operand. |
| `SqrtSf.SqrtremU` | reference/tinyemu/softfp_template.h:689-716 | In single words: the result is the floor of the root, and exactness is reported, if and only if the first guess is not too low and the operand is not the largest one, for which a sum overflows and the result is 0. |
| `SqrtSf.LargestOperand` | reference/tinyemu/softfp_template.h:689-716 | A witness: the largest operand in 32 bits. |
| `SqrtSf.SqrtremWide` | reference/tinyemu/softfp_template.h:657-683 | In double words, for every operand: the result is the floor of the root if and only if the high word is not the square of the first guess with a low word that reaches the next square; otherwise it is the first guess. |
| `SqrtSf.GuessTooLow` | reference/tinyemu/softfp_template.h:657-683 | A witness: the root of 2^32 + 3 * 2^16 in 32 bits. |
| `SqrtSf.Sqrt` | reference/tinyemu/softfp_template.h:720-767 | The square root of every word. For a positive finite operand, in every format whose roots are never subnormal, the result is the neighbour the mode picks between two words whose squares enclose the operand, with inexact flagged exactly when neither square is the operand; mode by mode, its square is not above the operand in RDN and RTZ, not below it in RUP, and of the nearest word in RNE and RMM; no real root is assumed. For every format it is the rounding of each real whose square is the operand. Zeros are returned with their sign; negative numbers, NaNs and infinity are as the standard asks. |
| `RootSquares.RootAtUnique` | reference/tinyemu/softfp_template.h:720-767 | Which two words enclose the root, and on which side of their middle it lies, is decided by squares alone, in one way only. |
| `RootLaws.RootPicked` | reference/tinyemu/softfp_template.h:720-767 | That word, by the name of the mode and the squares of words alone: no number lies between it and the root on its side. |
| `RootSquares.Placed` | reference/tinyemu/softfp_template.h:748-766 | The integer root with its sticky bit finds that place, and rounding it delivers the word picked there. |
| `RootSquares.InterchangeRoots` | reference/tinyemu/softfp_template.h:720-767 | The 32, 64 and 128 bit formats have no subnormal roots. |
| `FmaSf.AddWords` | reference/tinyemu/softfp_template.h:520-522 | Two-word addition with carry. |
| `FmaSf.SubWords` | reference/tinyemu/softfp_template.h:523-527 | Two-word subtraction with borrow. |
| `FmaSf.AlignRight` | reference/tinyemu/softfp_template.h:501-516 | The two-word right shift is a shift with sticky bit, for distances below, at and above a word and beyond both words. |
| `FmaSf.AlignedFacts` | reference/tinyemu/softfp_template.h:501-516 | What is left of the smaller term after the shift rounds like the exact term, and is exact for distances 0 and 1, where cancellation can be complete. |
| `FmaSf.FmaAligned` | reference/tinyemu/softfp_template.h:501-550 | With the larger term first, aligning, adding or subtracting and normalizing round the exact sum once. |
| `FmaSf.FmaCombine` | reference/tinyemu/softfp_template.h:491-550 | Ordering the terms by exponent and high word is enough for the step above. |
| `FmaSf.FmaProduct` | reference/tinyemu/softfp_template.h:462-471 | The product is kept exactly in two words, doubled when its leading bit is one place low. |
| `FmaSf.ZeroProduct` | reference/tinyemu/softfp_template.h:440-457 | A zero product returns the addend unchanged, or a zero with the sign the mode asks for, as a single rounding of the exact sum would. |
| `FmaSf.FmaFinite` | reference/tinyemu/softfp_template.h:462-550 | For finite operands the result is one rounding of the exact product plus the addend. |
| `FmaSf.Fma` | reference/tinyemu/softfp_template.h:402-552 | Fused multiply-add returns the single correct rounding of a*b+c for all triples of words, with the flags of IEEE 754-2019; for finite ones also stated mode by mode over signed values. It has the flags RISC-V asks for if and only if the addend is not a quiet NaN beside an infinity times zero, or invalid was raised before. |
| `FloatSpec.FmaInvalid` | reference/tinyemu/softfp_template.h:416-438 | The outcome computed and the one the RISC-V manual asks for (section "Single-Precision Floating-Point Computational Instructions" of the F extension) agree in the word always, and in the flags if and only if a quiet NaN addend does not hide an infinity times zero. |
| `FloatSpec.FmaSilent` | reference/tinyemu/softfp_template.h:416-438 | A witness in 32 bits: infinity times zero plus a quiet NaN raises nothing where invalid is due. |
| `MulHigh.Mulhu` | reference/tinyemu/riscv_cpu_template.h:123-146 | The half-word scheme gives the high word of the unsigned product. |
| `MulHigh.SignedProduct` | reference/tinyemu/riscv_cpu_template.h:150-159 | What the signed high word and the unsigned one differ by: the other operand, for each negative operand. |
| `MulHigh.MixedProduct` | reference/tinyemu/riscv_cpu_template.h:161-168 | The same for a signed and an unsigned operand. |
| `MulHigh.Mulh` | reference/tinyemu/riscv_cpu_template.h:150-159 | The fallback for machines without 128-bit integers subtracts each negative operand instead of the other one: the exact result is stated, and it is the signed high word if and only if the signs agree. |
| `MulHigh.Mulhsu` | reference/tinyemu/riscv_cpu_template.h:161-168 | The mixed form has the same slip: the exact result is stated, and it is right if and only if the signed operand is not negative or has the bits of the other. |
| `MulHigh.MulhSlip` | reference/tinyemu/riscv_cpu_template.h:150-159 | Calling it with -1 and 1 returns 1 where the high word is all ones. |
| `MulHigh.MulhsuSlip` | reference/tinyemu/riscv_cpu_template.h:161-168 | So does the mixed form. |
| `Budget.Blocks` | reference/tinyemu/riscv_cpu_template.h:200-289 | Testing the budget only at jumps and page ends, the loop overruns it by fewer instructions than a page holds; it charges one cycle for each instruction and one for a trap, and the reason it ends is the first that applies. |
| `Budget.Interp` | reference/tinyemu/riscv_cpu_template.h:1711-1728 | On every exit the instruction counter has advanced, modulo 2^64, by the instructions run and one more for a trap: at least one and fewer than budget + 2048. |
| `Budget.Run` | reference/tinyemu/riscv_cpu.c:1229-1258 | The machine counts as powered down exactly if it had powered down when the loop stopped, and had not before. A slice of n cycles ends, at n or more counted instructions unless the machine powered down, with fewer than 2048 too many, also when the 64-bit counter wraps. |
| `PhysMem.GetPhysMemRange` | reference/tinyemu/iomem.c:68-78 | The search returns the first range that holds the address, or nothing. |
| `PhysMem.LocatePage` | reference/tinyemu/iomem.c:68-78 | With page-aligned, disjoint ranges a page lies in one range, at one offset. |
| `PhysMem.LocateInjective` | reference/tinyemu/iomem.c:68-78 | Two addresses never name the same byte. |
| `PhysMem.StoreLoad` | reference/tinyemu/riscv_cpu_priv.h:253-281 | A little-endian store is read back. |
| `PhysMem.StoreOutside` | reference/tinyemu/riscv_cpu_priv.h:270-281 | A store changes no other byte. |
| `PageWalk.TranslatePage` | reference/tinyemu/riscv_cpu.c:188-294 | Translation is uniform over a page, superpages included, and so is what a walk writes. |
| `WalkLaws.TranslateByBits` | reference/tinyemu/riscv_cpu.c:232-288 | For every access, by bits: given the tables a walk goes through, it succeeds if and only if the address is sign-extended, and in the last word bit 1 is set or, with MXR, bit 3 for a read, bit 2 for a write, bit 3 for a fetch, bit 2 never without bit 1, and bit 4 as privilege and SUM ask; the address has the low bits of the virtual and the high bits of the frame. |
| `WalkLaws.TranslateNeedsPath` | reference/tinyemu/riscv_cpu.c:244-294 | Without such tables no address is translated. |
| `WalkLaws.PathWalks` | reference/tinyemu/riscv_cpu.c:244-294 | Such tables, each entry picked by nine bits of the address and leading to the next, decide the leaf. |
| `WalkLaws.BitsSet` | reference/tinyemu/riscv_cpu.c:275-285 | A walk that succeeds sets bit 6 of the last word, and bit 7 for a write, and changes no other bit and no other word; one that fails changes nothing. |
| `PageWalk.GrownMeaning` | reference/tinyemu/riscv_cpu.c:255-288 | Setting accessed and dirty bits changes neither the target nor the permissions of an entry. |
| `PageWalk.ReadAfterWrite` | reference/tinyemu/riscv_cpu.c:154-171 | A table entry that was written is read back; other entries keep their value. |
| `PageWalk.LeafFacts` | reference/tinyemu/riscv_cpu.c:244-257 | A walk that ends in a leaf has read it from an aligned slot in RAM. |
| `PageWalk.WalkKeepsTranslations` | reference/tinyemu/riscv_cpu.c:275-285 | What a walk writes into the tables changes no translation of any address, for any kind of access. |
| `PageWalk.WalkTwice` | reference/tinyemu/riscv_cpu.c:275-285 | Walking again writes nothing more. |
| `Settled.KeptTables` | reference/tinyemu/riscv_cpu.c:188-294 | Changes to memory that no walk reads change no translation. |
| `Settled.QuietStep` | reference/tinyemu/riscv_cpu.c:188-294 | A step that only walks, or leaves the tables alone, changes no translation and revives no pending table write. |
| `Settled.SettledLasts` | reference/tinyemu/riscv_cpu.c:188-294 | Over any run of such steps, a page once walked still gives the same place, with nothing left to write. |
| `TlbCpu.CachedPage` | reference/tinyemu/riscv_cpu_priv.h:253-268 | Under that condition every valid cache entry gives, for every address of its page, the place a walk would find now. |
| `TlbCpu.HitSettled` | reference/tinyemu/riscv_cpu_priv.h:253-268 | A hit implies that the access is aligned and its translation current. |
| `TlbCpu.HitLoad` | reference/tinyemu/riscv_cpu_priv.h:253-268 | A load that hits reads what the slow path would read, and the slow path would change nothing. |
| `TlbCpu.HitStore` | reference/tinyemu/riscv_cpu_priv.h:270-281 | A store that hits does what the slow path would do, and writes the bytes the slow path would write. |
| `TlbCpu.HitDirty` | reference/tinyemu/riscv_cpu_priv.h:270-281 | A store that hits touches only pages already marked dirty. |
| `TlbCpu.FilledEntry` | reference/tinyemu/riscv_cpu.c:384-387 | The entry filled after a walk is right for its whole page. |
| `TlbCpu.Cpu.constructor` | reference/tinyemu/riscv_cpu.c:587-596 | The empty caches satisfy the invariant. |
| `TlbCpu.Cpu.FlushAll` | reference/tinyemu/riscv_cpu.c:587-606 | After a full flush no entry is valid and the history begins anew. |
| `TlbCpu.Cpu.FlushWriteRange` | reference/tinyemu/riscv_cpu.c:609-626 | No write entry into the range survives, and no other field of an entry changes. |
| `TlbCpu.Cpu.PhysRead64` | reference/tinyemu/riscv_cpu.c:164-171 | Reads a table entry; what is not RAM reads as zero. |
| `TlbCpu.Cpu.PhysWrite64` | reference/tinyemu/riscv_cpu.c:154-162 | Writes a table entry. |
| `TlbCpu.Cpu.GetPhysAddr` | reference/tinyemu/riscv_cpu.c:188-294 | The iterative walk refines the recursive definition: same target or fault, same table writes. By WalkLaws that is the walk on bits. |
| `TlbCpu.Cpu.Finish` | reference/tinyemu/riscv_cpu.c:255-288 | Permission checks, MXR, SUM and the accessed and dirty bits at the leaf, as WalkLaws states them on bits. |
| `TlbCpu.Cpu.ReadAligned` | reference/tinyemu/riscv_cpu.c:369-435 | The aligned slow load reads through the walk and keeps the caches right. |
| `TlbCpu.Cpu.ReadU` | reference/tinyemu/riscv_cpu_priv.h:253-268 | Fast path and slow path together return what memory holds through the current translation, for every address and size, whatever is cached. A load adds nothing to memory but what its walks write. |
| `TlbCpu.Cpu.ReadSlow` | reference/tinyemu/riscv_cpu.c:297-436 | The same for the slow path, which splits an unaligned load in two aligned ones. |
| `TlbCpu.Cpu.SetDirtyBit` | reference/tinyemu/iomem.h:105-115 | The page of the address is marked and no other; no mark is lost. |
| `TlbCpu.Cpu.WriteAligned` | reference/tinyemu/riscv_cpu.c:456-497 | The aligned slow store marks the page, stores, and keeps the caches and the dirty tables right. The bytes accounted as stored grow by exactly the bytes written, and those accounted as written by walks only by bytes that a walk changed. |
| `History.WrittenAligned` | reference/tinyemu/riscv_cpu.c:456-497 | An aligned store writes all its bytes, side by side, or none. |
| `TlbCpu.Cpu.WriteU` | reference/tinyemu/riscv_cpu_priv.h:270-281 | Fast path and slow path together store through the current translation. Exactly the bytes before the first that faults are accounted as stored, and each of them is on a dirty page. |
| `TlbCpu.Cpu.WriteSlow` | reference/tinyemu/riscv_cpu.c:439-522 | The same for the slow path, which stores byte by byte when unaligned and stops at the first fault. |
| `History.ByteQuiet` | reference/tinyemu/riscv_cpu.c:449-455 | Each turn of the byte loop adds the byte its address translated to before the store began, or stops at the first address that faulted then. |
| `History.RecordedThen` | reference/tinyemu/riscv_cpu.c:188-294 | Steps of two accesses one after the other: each is a walk or a store, and only bytes that a walk changed are accounted to walks. |
| `History.ReadsQuiet` | reference/tinyemu/riscv_cpu.c:188-294 | Accesses that only walk keep the fence rule. |
| `History.TranslationLasts` | reference/tinyemu/riscv_cpu.c:188-294 | Over a run that keeps the fence rule no translation changes. |
| `TlbCpu.Cpu.ReadInsnU16` | reference/tinyemu/riscv_cpu.c:539-584 | An instruction fetch returns what memory holds through the fetch translation. |
| `TlbCpu.Cpu.SetMstatus` | reference/tinyemu/riscv_cpu.c:674-699 | Writing mstatus keeps the caches right. |
| `Control.UnflushedWrite` | reference/tinyemu/riscv_cpu.c:678-683 | When writing mstatus does not flush, no translation depends on what changed. |
| `Control.ViewByBits` | reference/tinyemu/riscv_cpu.c:196-241 | Who is translated and how, by the bits of mstatus and satp: fetches by the privilege, data accesses as the privilege in bits 12 and 11 if bit 17 is set, never in M-mode or mode 0. |
| `TlbCpu.Cpu.WriteSstatus` | reference/tinyemu/riscv_cpu.c:906-908 | Only the bits of sstatus change, and the caches stay right. |
| `TlbCpu.Cpu.WriteSatp` | reference/tinyemu/riscv_cpu.c:935-956 | Unsupported modes are ignored; the caches stay right. |
| `TlbCpu.Cpu.SetPriv` | reference/tinyemu/riscv_cpu.c:1021-1040 | A change of privilege flushes; no change keeps everything. |
| `TlbCpu.Cpu.RaiseException` | reference/tinyemu/riscv_cpu.c:1042-1120 | A trap reaches the state the delegation registers ask for, and keeps the caches right outside the case below. |
| `Control.TrapUnnoticed` | reference/tinyemu/riscv_cpu.c:1097-1119 | A trap changes translations without a flush if and only if it is taken in M-mode with MPRV set, a lower MPP and paging on. |
| `Stale.TrapBreaks` | reference/tinyemu/riscv_cpu.c:1097-1119 | In that case there is a memory for which an entry filled before the trap gives the wrong place after it. |
| `TlbCpu.Cpu.HandleMret` | reference/tinyemu/riscv_cpu.c:1143-1157 | Returning from M-mode keeps the caches right outside the case below. |
| `Control.MretUnnoticed` | reference/tinyemu/riscv_cpu.c:1143-1157 | MRET changes translations without a flush if and only if it returns to M-mode with MPRV set and paging on. |
| `Stale.MretBreaks` | reference/tinyemu/riscv_cpu.c:1143-1157 | In that case there is a memory for which an entry goes stale. |
| `Control.SretNoticed` | reference/tinyemu/riscv_cpu.c:1127-1141 | SRET never changes translations without a flush. |
| `Control.TrapThenSret` | reference/tinyemu/riscv_cpu.c:1097-1141 | A trap to S followed by SRET restores the privilege and its interrupt enable; SPIE ends set, SPP clear, interrupts of S are off meanwhile and after a trap from U, and no other bit changes. |
| `Control.TrapThenMret` | reference/tinyemu/riscv_cpu.c:1107-1157 | The same for a trap to M and MRET, from every privilege. |
| `TlbCpu.Cpu.HandleSret` | reference/tinyemu/riscv_cpu.c:1127-1141 | Returning from S-mode keeps the caches right. |
| `LoadStore.LoadComposes` | reference/tinyemu/riscv_cpu.c:297-368 | A load at any address, over a page boundary or the end of the address space, is made of the bytes its addresses translate to. |
| `StoreLoad.StoreBytesRun` | reference/tinyemu/riscv_cpu.c:449-455 | The byte loop of an unaligned store puts every byte where its own address translates to and changes nothing else outside the tables. |
| `StoreLoad.StoreThenLoad` | reference/tinyemu/riscv_cpu.c:297-522 | For every address and size, a store whose bytes lie outside the page tables succeeds and is read back. |
| `TlbCpu.Cpu.GetDirtyBits` | reference/tinyemu/iomem.c:130-156 | Every byte of the range that was stored, or that differs from what was last shown and was not changed by a walk, is on a reported page, and every reported page has a byte that was stored since it was last reported; afterwards no page is marked and no write entry bypasses the next marking. |
| `TlbCpu.SwapKeeps` | reference/tinyemu/iomem.c:152-154 | Swapping in the clean table is sound once no write entry points into the range. |
| `TlbCpu.NoneWhenClean` | reference/tinyemu/iomem.c:139-150 | With no page dirty there is no such entry, so the flush may be skipped. |
| `TlbCpu.AnySet` | reference/tinyemu/iomem.c:139-146 | Whether any page of a table is marked. |
| `DirtyPages.SetBitMarks` | reference/tinyemu/iomem.h:105-115 | Marking a page marks all its bytes, unmarks none, and marks no other page. |
| `DirtyPages.MarkedTouched` | reference/tinyemu/iomem.h:105-115 | If every marked page had a stored byte, it still has after one is marked and stored to. |
| `FrameBuffer.AddPage` | reference/tinyemu/simplefb.c:70-86 | One dirty page more: every row of it will be drawn, rectangles handed out stay handed out, and no row is drawn that is not near a dirty page. |
| `FrameBuffer.Refresh` | reference/tinyemu/simplefb.c:48-96 | Every visible row of every dirty page is covered by a rectangle, every row drawn is a row of a dirty page or one of the three above it, and the rectangles stay on the screen if and only if every dirty page that begins below it is merged into a region that begins on it. |
| `FrameBuffer.NoneBelow` | reference/tinyemu/simplefb.c:70-86 | That is so when no dirty page begins below the screen. |
| `FrameBuffer.OffScreen` | reference/tinyemu/simplefb.c:70-95 | A witness that it is not always so: a single dirty page below a one-row screen. |
| `FrameBuffer.RefreshScreen` | reference/tinyemu/simplefb.c:48-96 | The row of every byte of the frame buffer that was stored since the last refresh is drawn, if it is on the screen; afterwards the screen shows what memory holds. |
| `FrameBuffer.StoreThenRefresh` | reference/tinyemu/simplefb.c:48-96 | From instruction to screen: after a store and a refresh, the row of every byte the store wrote into the frame buffer is drawn, whatever was cached. |
| `Cbc.XorTwice` | reference/tinyemu/aes.c:1283-1319 | Exclusive or with the same block undoes itself. |
| `Cbc.DecryptEncrypt` | reference/tinyemu/aes.c:1272-1321 | CBC decryption undoes CBC encryption, for any block cipher that is a pair of inverse functions. |
| `Cbc.EncryptAt` | reference/tinyemu/aes.c:1283-1297 | Block by block: what goes into the cipher is the block combined with the ciphertext block before it, or the initial vector (section 6.2 of NIST SP 800-38A). |
| `Cbc.DecryptAt` | reference/tinyemu/aes.c:1303-1319 | Block by block: what comes out is what the cipher gives, combined with the ciphertext block before it, or the initial vector. |
| `Cbc.DecryptAppend` | reference/tinyemu/aes.c:1303-1319 | Decrypting in pieces with the chained vector is decrypting at once. |
| `Cbc.DecryptInPlace` | reference/tinyemu/aes.c:1272-1321 | The in-place loop computes the decryption, a last partial block included, leaves the rest of the buffer alone, and leaves the chaining vector for the next piece when the length is whole blocks. |
| `DecryptFile.Decryptor.constructor` | reference/tinyemu/fs_wget.c:344-354 | A decryptor that has seen nothing. |
| `DecryptFile.Decryptor.HeaderStep` | reference/tinyemu/fs_wget.c:363-374 | The header is collected however it is split, and refused exactly when the magic is wrong. |
| `DecryptFile.Decryptor.BodyStep` | reference/tinyemu/fs_wget.c:375-391 | The body is decrypted buffer by buffer with one block held back. |
| `DecryptFile.Decryptor.Emit` | reference/tinyemu/fs_wget.c:375-391 | A full buffer is decrypted but for its last block and handed to the caller, who may refuse it. |
| `DecryptFile.Decryptor.Feed` | reference/tinyemu/fs_wget.c:356-399 | After any chunk below 2^31 bytes the output is the decryption of what can be decrypted of everything fed so far, or the magic is wrong, or the caller refused what it was handed. A longer chunk is never taken in full. |
| `DecryptFile.Decryptor.Flush` | reference/tinyemu/fs_wget.c:402-424 | At the end the held block is decrypted and its padding removed, or the file is refused, or the caller refused the last bytes. |
| `DecryptFile.DecryptChunks` | reference/tinyemu/fs_net.c:798-833 | However a file is cut into chunks, verdict and output are those of the one-shot definition; the loader uses the verdict. |
| `DecryptFile.DownloadFile` | reference/tinyemu/fs_wget.c:458-492 | A download into a file does not use the verdict on the end of the stream. What it reports agrees with the one-shot definition if and only if that is good, or the magic was wrong already; what it wrote always agrees. |
| `DecryptFile.HeaderOnly` | reference/tinyemu/fs_wget.c:458-492 | A witness: a header without a body is reported as a complete, empty file. |
| `DecryptFile.EndOfStream` | reference/tinyemu/fs_wget.c:402-424 | The one-shot definition, split at the buffer boundary the code uses. |
| `DecryptFile.DecryptedEncrypted` | reference/tinyemu/fs_wget.c:356-424 | Decrypting an encrypted file gives back every plaintext, including the empty one and multiples of the block size. |
| `Sha256.ZeroCountLeast` | reference/tinyemu/sha256.c:255-273 | The padding is the shortest that fits (FIPS 180-4, section 5.1.1). |
| `Sha256.PaddedLayout` | reference/tinyemu/sha256.c:255-273 | Every byte of the padded message: the message, 0x80, zeros, and its length in bits in eight bytes, most significant first; whole blocks, and no more than one beyond. |
| `Sha256.WordsAt` | reference/tinyemu/sha256.c:278-285 | Every byte of the digest, from the words of the last state. |
| `Sha256.FinalBlocks` | reference/tinyemu/sha256.c:255-277 | One or two last blocks, as the fill level decides, are the padded message. |
| `Sha256.Context.constructor` | reference/tinyemu/sha256.c:193-205 | A context that has seen nothing. |
| `Sha256.Context.Update` | reference/tinyemu/sha256.c:207-235 | The call returns if and only if the size of the input as a 32-bit int does not stop a held block from being completed; then the context stands for the concatenation of everything it was given. |
| `Sha256.Context.Final` | reference/tinyemu/sha256.c:243-286 | The digest is that of the padded message (FIPS 180-4, section 6.2). |
| `Sha256.DigestChunks` | reference/tinyemu/sha256.c:193-286 | However the message is cut, the digest is the same. |
| `Hmac.Hash` | reference/tinyemu/sha256.c:288-295 | The one-call form. |
| `Hmac.Repad` | reference/tinyemu/fs_wget.c:573-574 | Turning the inner padded key into the outer one by a single exclusive or. |
| `Hmac.PadKey` | reference/tinyemu/fs_wget.c:548-557 | A key longer than a block is hashed first, a shorter one filled with zeros. |
| `Hmac.LongKey` | reference/tinyemu/fs_wget.c:548-552 | A key longer than a block and its digest give the same code. |
| `Hmac.MacLayout` | reference/tinyemu/fs_wget.c:548-576 | Every byte of the two messages hashed: the key with 0x36 and the text, the key with 0x5c and the first digest. |
| `Hmac.MacContext.constructor` | reference/tinyemu/fs_wget.c:544-560 | A context keyed and with no text. |
| `Hmac.MacContext.Update` | reference/tinyemu/fs_wget.c:562-565 | The context stands for the text so far. |
| `Hmac.MacContext.Final` | reference/tinyemu/fs_wget.c:568-576 | The result is the HMAC of RFC 2104, section 2. |
| `Hmac.Pbkdf2` | reference/tinyemu/fs_wget.c:580-613 | The derived key is the prefix of the block sequence of RFC 8018, section 5.2. |
| `Hmac.BlockIs` | reference/tinyemu/fs_wget.c:580-613 | A block is, byte by byte, the exclusive or of its iterates, each the code of the one before, the first that of the salt and the block number in four bytes. |
| `Hmac.BlocksAt` | reference/tinyemu/fs_wget.c:580-613 | Blocks are numbered from one and laid side by side. |
| `BlockNet.ReadsLatest` | reference/tinyemu/block_net.c:262-339 | Whatever was written, a read returns the latest data if and only if no written sector in it follows an unwritten one of the same block. |
| `BlockNet.StaleRead` | reference/tinyemu/block_net.c:287-323 | A read of two clusters of one block, the second of them written, returns the old data. |
| `BlockNet.OneClusterRead` | reference/tinyemu/block_net.c:262-339 | A read within one cluster always returns the latest data. |
| `BlockNet.ClusterCopyFits` | reference/tinyemu/block_net.c:299-317 | With a block of 2^k sectors, copying any cluster out of a block stays inside the block if and only if k is at least 3, that is, blocks hold whole clusters. |
| `BlockNet.EvictKeeps` | reference/tinyemu/block_net.c:147-158 | Making room never drops a block that is being loaded and makes as much room as it can. |
| `BlockNet.EvictOldest` | reference/tinyemu/block_net.c:147-158 | Among loaded blocks the least recently used go first. |
| `BlockNet.BlockDevice.constructor` | reference/tinyemu/block_net.c:460-482 | The device starts as the image, for every block size the code accepts. |
| `BlockNet.BlockDevice.FindBlock` | reference/tinyemu/block_net.c:117-134 | A block that is found moves to the front; the others keep their order. |
| `BlockNet.BlockDevice.MakeRoom` | reference/tinyemu/block_net.c:147-158 | The list after eviction. |
| `BlockNet.BlockDevice.AddBlock` | reference/tinyemu/block_net.c:144-168 | Room is made and a loading block is put at the front; each block is in the list once. |
| `BlockNet.BlockDevice.Prefetch` | reference/tinyemu/block_net.c:492-525 | A block is requested ahead unless it is there. |
| `BlockNet.BlockDevice.WriteToCluster` | reference/tinyemu/block_net.c:275-286 | Sectors written into a cluster change exactly those sectors of the disk. |
| `BlockNet.BlockDevice.ReadFromCluster` | reference/tinyemu/block_net.c:275-286 | Sectors read from a written cluster. |
| `BlockNet.BlockDevice.ReadFromBlock` | reference/tinyemu/block_net.c:318-323 | Sectors read from a cached block, up to its end. |
| `BlockNet.BlockDevice.AllocateCluster` | reference/tinyemu/block_net.c:299-317 | A new cluster starts as a copy of the image, so the disk does not change. |
| `BlockNet.BlockDevice.RwAsync1` | reference/tinyemu/block_net.c:262-339 | Called again and again as blocks arrive, the transfer loop resumes where it stopped, and gets further if the sector it stopped at is at hand; when it ends the whole request has taken effect, and the callback is called once. A write where blocks are smaller than clusters never ends well. |
| `BlockNet.BlockDevice.ReadAsync` | reference/tinyemu/block_net.c:370-385 | A read fills the buffer with the sectors defined above and changes nothing. Its outcome is defined if and only if all its sectors are in the image. |
| `BlockNet.BlockDevice.WriteAsync` | reference/tinyemu/block_net.c:387-402 | A write puts its data on the disk and changes no other sector, if its sectors are in the image and blocks hold whole clusters; otherwise it has no defined outcome, or never completes. |
| `BlockNet.BlockDevice.OnLoad` | reference/tinyemu/block_net.c:341-368 | A block that arrives is in the cache with its data and no longer being loaded, unless the request it woke had to evict it for another; it wakes the request that waits for it, and only that one, and if that must wait again it has come further, so a request of n sectors is woken at most n times; when the request is done its effect is the one stated at its start. A failed load ends the process with nothing changed. |
| `Wisp.Stream.Spend` | web/rv64.js:1677-1682 | One credit, one packet, oldest first. |
| `Wisp.Stream.Keep` | web/rv64.js:1617-1619 | Without credit a packet waits, behind those that wait already. |
| `Wisp.OpenInverse` | web/rv64.js:1590-1605 | Opening keeps the two maps inverse if and only if the guest has no stream open. |
| `Wisp.Reopened` | web/rv64.js:1590-1605 | A CONNECT for a number used before breaks the order of packets on the wire. |
| `Wisp.SendConnect` | web/rv64.js:1590-1605 | On the wire a stream begins with its CONNECT. |
| `Wisp.SendData` | web/rv64.js:1607-1620 | DATA comes after its CONNECT and before its CLOSE. |
| `Wisp.SendClose` | web/rv64.js:1627-1636 | Nothing of a stream follows its CLOSE. |
| `Wisp.Client.constructor` | web/rv64.js:1569-1588 | A client with no streams. |
| `Wisp.Client.Send` | web/rv64.js:1684-1687 | Packets go out, or are queued, in order. |
| `Wisp.Client.OpenStream` | web/rv64.js:1590-1605 | A new number, its CONNECT, and the credit granted to new streams. The client stays consistent if and only if the guest has no stream open and fewer than 2^32 - 1 streams were opened before. |
| `Wisp.Client.SendBytes` | web/rv64.js:1607-1620 | The guest's DATA is sent or kept, after all its earlier DATA; other streams are untouched. |
| `Wisp.Client.Drain` | web/rv64.js:1677-1682 | What waits is sent as far as the credit goes. |
| `Wisp.Client.Datagram` | web/rv64.js:1622-1625 | A datagram is handed to the guest's stream, which is opened as UDP if there is none. The client stays consistent if and only if none had to be opened or stream numbers had not run out. |
| `Wisp.Client.CloseGuest` | web/rv64.js:1627-1636 | One CLOSE, and the stream is gone from both maps. |
| `Wisp.Client.OnOpen` | web/rv64.js:1689-1692 | What was queued goes out, in order. |
| `Wisp.Client.OnClose` | web/rv64.js:1583-1587 | Every guest with a stream is told, and both maps are empty. |
| `Wisp.Client.GrantAll` | web/rv64.js:1655-1662 | Credit for stream 0 goes to the streams that have run out and to those to come. Such a stream may then send that many packets, counted from those sent before the message; others keep their grant and where it is counted from. |
| `Wisp.Client.GrantNext` | web/rv64.js:1657-1660 | The turn of one stream in that loop. |
| `Wisp.Client.OnContinue` | web/rv64.js:1654-1666 | The same for a CONTINUE that names one stream, which is granted in any case. |
| `Wisp.Client.Receive` | web/rv64.js:1645-1670 | DATA of transport 2 reaches the guest as a datagram, other DATA as a stretch of the stream. After a CONTINUE that names a stream, or names none and finds it without credit, what it may send and has sent since add up to the amount. For every message: what reaches the guest, which streams end, which grants change and from which packet on they count; no packet is lost, reordered, or sent beyond its stream's grant, and only a CONTINUE makes packets go out. |
| `Wisp.Client.Shutdown` | web/rv64.js:1638-1643 | Closing forgets all streams without a word. |
| `Lifecycle.InvStep` | web/rv64.js:1935-2104 | Every step keeps the invariant, listeners that call back in or throw and interleaved awaits included. |
| `Lifecycle.InvRun` | web/rv64.js:1935-2104 | It holds in every state of every run. |
| `Lifecycle.OneLiveTick` | web/rv64.js:2079-2104 | Never two ticks of the current generation. A running machine has exactly one if and only if no listener threw when that generation was started. |
| `Lifecycle.TicksStep` | web/rv64.js:1935-2104 | The step of that: which generations lost their tick, and that nothing else loses one. |
| `Lifecycle.LostStays` | web/rv64.js:1935-2104 | A lost tick does not come back within its generation: no slice begins until the machine is stopped and started. |
| `Lifecycle.StartLost` | web/rv64.js:1935-1942 | A witness: the first start listener throws, and a second start does nothing. |
| `Lifecycle.NoSliceUntilStart` | web/rv64.js:1944-1950 | Once stopped, no slice begins before the next start. |
| `Lifecycle.NoSliceAfterDestroy` | web/rv64.js:1961-1975 | Once destroyed, no slice ever begins. |
| `Lifecycle.RunningChanges` | web/rv64.js:1935-2104 | In every run, which events make a machine run, which end its running, which destroy it, and that no others do. |
| `Lifecycle.HaltHalts` | web/rv64.js:1944-1975 | In every run: after stop, reset or destroy on a machine that is not destroyed, or a slice that powers off or fails, no slice begins before the next start or the start that ends a reset. |
| `Lifecycle.NoStaleTick` | web/rv64.js:1944-1975 | In every run: a tick scheduled before a stop never runs a slice, even if the machine was started again. |
| `Lifecycle.StartRuns` | web/rv64.js:1935-1959 | In every run: after a start, or the start that ends a reset, a machine that is not destroyed runs until something halts it. |
| `Lifecycle.DestroyDestroys` | web/rv64.js:1961-1975 | In every run: once destroy is through, the machine stays destroyed and no slice begins. |
| `Lifecycle.TickFollows` | web/rv64.js:1935-1942 | A start that returns, and a slice that continues, leave one more tick scheduled. |
| `Lifecycle.Machine.Start` | web/rv64.js:1935-1942 | A machine that is not destroyed runs afterwards, in a new generation if it did not. Refines the step. |
| `Lifecycle.Machine.FinishStart` | web/rv64.js:1940-1941 | Schedules the first tick of the new generation. |
| `Lifecycle.Machine.AbandonStart` | web/rv64.js:1935-1942 | A listener throws and nothing is scheduled. |
| `Lifecycle.Machine.Stop` | web/rv64.js:1944-1950 | A machine that is not destroyed does not run afterwards, and ticks scheduled before are of an older generation. Refines the step. |
| `Lifecycle.Machine.Reset` | web/rv64.js:1952-1959 | Refines the step up to its first await. |
| `Lifecycle.Machine.FinishReset` | web/rv64.js:1952-1959 | After the stop it waited for, a reset starts the machine again unless it runs or is destroyed. |
| `Lifecycle.Machine.AbandonReset` | web/rv64.js:1952-1959 | Assembling the machine, or a listener, throws: it is not started again. |
| `Lifecycle.Machine.Destroy` | web/rv64.js:1961-1975 | Refines the step up to its first await. |
| `Lifecycle.Machine.FinishDestroy` | web/rv64.js:1964-1974 | Refines the rest. |
| `Lifecycle.Machine.Tick` | web/rv64.js:2079-2083 | Runs a slice exactly when running and of the current generation. |
| `Lifecycle.Machine.FinishTick` | web/rv64.js:2084-2104 | Powers off, fails, or schedules itself again. |
| `Lifecycle.Machine.FinishHalt` | web/rv64.js:2085-2103 | The listeners of a machine that powered off return, or one throws and the machine counts as failed, even if another started it. |
| `FsTree.RemoveEntry` | reference/tinyemu/fs_net.c:545-566 | Deleting an entry and lowering the count of what it named keeps all counts right. |
| `FsTree.AddEntry` | reference/tinyemu/fs_net.c:450-468 | Adding an entry and raising the count does too. |
| `FsTree.NewDirectory` | reference/tinyemu/fs_net.c:650-666 | A new directory counts its own entry and its parent's. |
| `FsTree.MadeDirectory` | reference/tinyemu/fs_net.c:650-666 | Where the names lead and which counts change, as Mkdir states them, without reference to how the entries are made. |
| `FsTree.RenamedTally` | reference/tinyemu/fs_net.c:1433-1455 | The order of raising and lowering in a rename never frees the file that moves, and leaves every count right. |
| `FsTree.RenamedWell` | reference/tinyemu/fs_net.c:1433-1455 | After a rename the tree is well formed if and only if the target directory is linked, or is linked again by this very entry, and the entry moved is not the "." of a directory with other entries. |
| `FsTree.Stray` | reference/tinyemu/fs_net.c:1382-1419 | An entry in a directory that is no longer linked leaves the tree ill formed. |
| `FsTree.RenameToItself` | reference/tinyemu/fs_net.c:1433-1455 | A witness: renaming a file to its own name looks at the entry it has deleted. |
| `FsTree.CreateInRemoved` | reference/tinyemu/fs_net.c:1082-1105 | A witness: a file created through a handle on a removed directory. |
| `FsTree.Tree.constructor` | reference/tinyemu/fs_net.c:1571-1575 | The root is its own parent and counted three times. |
| `FsTree.Tree.FidCreate` | reference/tinyemu/fs_net.c:586-594 | A new handle keeps its inode. |
| `FsTree.Tree.Attach` | reference/tinyemu/fs_net.c:621-629 | A handle on the root. |
| `FsTree.Tree.Walk` | reference/tinyemu/fs_net.c:631-648 | The new handle is on the last inode the names reach, and the count says how many were followed. |
| `FsTree.Tree.Delete` | reference/tinyemu/fs_net.c:579-584 | Giving up a handle frees an inode exactly when nothing names or holds it. |
| `FsDevice.SameCounts` | reference/tinyemu/fs_net.c:317-327 | The tree and the files count the same handles on every inode. |
| `FsDevice.Attach` | reference/tinyemu/fs_net.c:621-629 | A handle on the root, in both halves. |
| `FsDevice.Clunk` | reference/tinyemu/fs_net.c:579-584 | Giving up a handle frees an inode in both halves or in neither, and never one with entries left. Loads under way keep their handles if and only if none was for this one, or its inode was freed. |
| `FsTree.Tree.MakeNode` | reference/tinyemu/fs_net.c:1382-1419 | A new inode under a new name, or the right error and no change; a handle that is not a directory fails an assertion. Counts stay right; the tree stays well formed if and only if the directory is still linked. |
| `FsTree.Tree.Mkdir` | reference/tinyemu/fs_net.c:650-666 | A directory reached by its name, with "." leading to itself and ".." to its parent, every other name as before, two names of its own and one more of its parent; or the right error and no change; the tree stays well formed if and only if the parent is still linked. |
| `FsTree.Tree.Create` | reference/tinyemu/fs_net.c:1082-1105 | A new file, with the handle moved to it; the tree stays well formed if and only if the directory is still linked. |
| `FsTree.Tree.Link` | reference/tinyemu/fs_net.c:1370-1380 | Another name for a file, not for a directory, and only in a directory; the tree stays well formed if and only if the directory is still linked. |
| `FsTree.Tree.FlushDir` | reference/tinyemu/fs_net.c:568-577 | The entries of a directory are deleted one by one without freeing it. |
| `FsTree.Tree.Unlink` | reference/tinyemu/fs_net.c:1457-1475 | Exactly the entry and, for a directory, its own entries go; a directory that is not empty stays. |
| `FsTree.Tree.Rename` | reference/tinyemu/fs_net.c:1433-1455 | The entry moves, a file of the new name goes, a directory of the new name is refused. Renaming a file to itself, or into what is not a directory, has no defined outcome; otherwise counts stay right, and the tree stays well formed under the condition of RenamedWell. |
| `FsNodes.WrittenRead` | reference/tinyemu/fs_net.c:1246-1281 | Reading back what was written, what was around it, and zeros in a gap. |
| `FsNodes.ShrinkGrow` | reference/tinyemu/fs_net.c:1185-1244 | Cut short and grown again, a file shows zeros where it was cut. |
| `FsNodes.ResizeBuffer` | reference/tinyemu/fs_net.c:1211-1228 | Whatever the allocator's memory holds, the resized buffer starts with the resized contents, if the difference of the sizes fits a signed word. If it is larger nothing is grown; if it is smaller memory outside the buffer is cleared. |
| `FsNodes.BlocksHold` | reference/tinyemu/fs_net.c:312-315 | The blocks of a size hold it, with less than a block to spare, if and only if rounding up does not pass 2^64. |
| `FsNodes.SumUpdate` | reference/tinyemu/fs_net.c:312-315 | Changing one file changes the block sum by the difference. |
| `FsNodes.DirSizeWithout` | reference/tinyemu/fs_net.c:545-558 | Removing an entry anywhere in a directory takes its own size off the size of the directory. |
| `FsNodes.HeldStill` | reference/tinyemu/fs_net.c:724-758 | A file may be resized, loaded or moved in the cache, as long as what open handles see stays here, without harm to any handle. |
| `FsFiles.Files.constructor` | reference/tinyemu/fs_net.c:1543-1580 | An empty file system: no blocks, no handles, an empty cache. |
| `FsFiles.Files.Truncate` | reference/tinyemu/fs_net.c:1185-1244 | A file that does not grow by half a word or more is cut or filled with zeros, within the quota. One that does has the right contents if and only if there are zeros in memory behind it, and grows beyond its buffer exactly when the buffer is smaller. The file leaves the cache, the others keep their order; each error changes nothing. |
| `FsFiles.GrowByHalf` | reference/tinyemu/fs_net.c:1185-1244 | A witness: an empty file is given the size 2^63. |
| `FsFiles.Files.Write` | reference/tinyemu/fs_net.c:1246-1281 | The contents after a write through a handle. They are right if and only if the file does not grow by half a word or more, or happens to have zeros in the gap; a write whose end passes 2^64 never succeeds and may have no defined outcome. EPROTO exactly for a handle that is not open, EIO for a directory or a handle not open for writing, ENOSPC only beyond the quota or without memory; each error changes nothing. Other files keep their place in the cache. |
| `FsFiles.WriteAtEnd` | reference/tinyemu/fs_net.c:1246-1281 | A witness: two bytes at offset 2^64 - 1. |
| `FsFiles.Files.Read` | reference/tinyemu/fs_net.c:1162-1183 | As much as there is, with the same refusals; what an open handle reads is always here. |
| `FsNodes.TrimmedKeeps` | reference/tinyemu/fs_net.c:670-697 | Trimming drops no open file, and drops a closed one only if it drops every closed one used less recently. |
| `FsFiles.Files.Trim` | reference/tinyemu/fs_net.c:670-697 | Exactly those files are evicted, to be loaded again later; the new one fits, or only open files are left; sizes and blocks are accounted for. |
| `FsFiles.Files.OpenWget` | reference/tinyemu/fs_net.c:837-869 | Loading begins with room made and nothing received; what is evicted is exactly what trimming evicts. A size of 2^63 or more counts as negative. |
| `FsFiles.Files.Receive` | reference/tinyemu/fs_net.c:709-722 | However a file arrives in pieces, what is kept is the start of what came. |
| `FsFiles.Files.Finish` | reference/tinyemu/fs_net.c:724-758 | A complete file is loaded and cached, and the handle that waited for it is open; an incomplete one is dropped, and the handle stays closed. |
| `FsFiles.Files.Touch` | reference/tinyemu/fs_net.c:1066-1070 | Opening a loaded file makes it the most recently used. |
| `FsFiles.Files.NewHandle` | reference/tinyemu/fs_net.c:586-594 | A handle that is not open, and one more on its inode. |
| `FsFiles.Files.DropHandle` | reference/tinyemu/fs_net.c:579-584 | One handle less, and an inode that nothing names or holds is freed, with the load under way for it. Every load under way still has its handle if and only if none was for this one, or the inode was freed; a directory freed with entries fails an assertion. |
| `FsFiles.DropWhileLoading` | reference/tinyemu/fs_net.c:579-584 | A witness: a handle given up while its file is being loaded. |
| `FsFiles.Files.Close` | reference/tinyemu/fs_net.c:1283-1290 | The handle is not open, and no other handle is touched. |
| `FsFiles.Files.Open` | reference/tinyemu/fs_net.c:1008-1080 | A handle is open afterwards exactly if the answer says so; then it may read or write as asked and the contents are here. Truncating leaves the file empty unless it is being loaded or its buffer cannot be resized. A file that has to be loaded first leaves this handle waiting. No other handle changes, what other open handles see does not change, and other files are only evicted. |
| `FsFiles.Files.OpenFile` | reference/tinyemu/fs_net.c:1055-1080 | A file opens at once exactly if its contents are here, and is refused exactly if loading cannot begin or another handle already waits for it. Its own state in each case, the order of the cache, and that other files are only evicted and open ones untouched. |
| `FsFiles.Files.MarkOpened` | reference/tinyemu/fs_net.c:1074-1079 | A handle opened while the contents are here keeps them here, whatever is trimmed. |
| `FsFiles.Files.NewNode` | reference/tinyemu/fs_net.c:411-447 | A new file or directory takes no blocks. |
| `FsFiles.Files.FreeNode` | reference/tinyemu/fs_net.c:329-385 | A freed file gives back its blocks and its place in the cache; a directory with entries fails an assertion. |
| `FsFiles.Files.AddEntry` | reference/tinyemu/fs_net.c:450-468 | A directory grows by the size of the entry, and the blocks in use with it, below 2^31 bytes. |
| `FsFiles.Files.DeleteEntry` | reference/tinyemu/fs_net.c:545-558 | It shrinks by the size of the entry. |
| `FsFiles.Files.SetUrl` | reference/tinyemu/fs_net.c:1674-1701 | An empty local file becomes one to be loaded, with its size kept in a word. The accounts stay right if and only if the word has as many blocks as the whole size; what open handles see stays here if and only if no handle on the file is open. |
| `FsFiles.UrlWhileOpen` | reference/tinyemu/fs_net.c:1674-1701 | A witness: an empty file, opened and then given a URL. |
| `FileNames.QuotedStr` | reference/tinyemu/fs_utils.c:85-120 | Printing a name, quoted and escaped when need be. |
| `FileNames.ParseFname` | reference/tinyemu/fs_utils.c:122-188 | Parsing a name, with all its errors and the buffer limit. |
| `FileNames.RoundTrip` | reference/tinyemu/fs_utils.c:85-188 | Every name that fits is read back, unless it is printable without blanks and begins with a quote. |
| `FileNames.ReadBackIff` | reference/tinyemu/fs_utils.c:85-188 | Before a blank or the end of the text, a printed name is read back if and only if it fits the buffer and is not a printable name that begins with a quote. |
| `FileNames.QuoteFirst` | reference/tinyemu/fs_utils.c:85-188 | A witness: the letter a preceded by a double quote is printed as it is, and reading it fails. |
| `FileTimes.PrintFraction` | reference/tinyemu/build_filelist.c:157-166 | The printed digits are the nanoseconds, without trailing zeros. |
| `FileTimes.PrintTime` | reference/tinyemu/build_filelist.c:157-166 | Seconds modulo 2^32 in decimal, then the fraction if there is one. |
| `FileTimes.ParseFraction` | reference/tinyemu/fs_utils.c:226-248 | The digits read are worth what is returned, however many there are. |
| `FileTimes.ParseTime` | reference/tinyemu/fs_utils.c:226-248 | Blanks are skipped; seconds, and a fraction if a point follows; a text that does not begin with a number is refused. |
| `FileTimes.PrintThenParse` | reference/tinyemu/fs_utils.c:190-248 | A printed time is read back, nanoseconds always, seconds if and only if they are at least 0 and below 2^32. |

## Left out

- SqrtSf.SqrtremU: high words below a quarter of a word, the bound that the comment on the function gives.
- SqrtSf.Sqrt: in formats so narrow that a root can be subnormal the result is stated by real roots only; the formats the source builds are not among them.
- TlbCpu.Cpu.ReadU: the value is stated for runs that keep the guest's fence rule, that is, memory read as page table changes only through walks; likewise ReadSlow and ReadInsnU16.
- TlbCpu.Cpu.WriteU: likewise; an unaligned store is several stores, so for it the run includes the store itself. Likewise WriteSlow.
- TlbCpu.Cpu.GetDirtyBits: a byte that only a walk changed need not be reported, since walks set no dirty bit, as in the code.
- BlockNet.BlockDevice.OnLoad: a block that does arrive carries the data of the image.
- FsFiles.Files.Truncate: a file that is not loaded yet gets no quota check, as in the code.
- FsFiles.Files.Write: at most 2^31 - 1 bytes at once, which is what its count can say.
- DecryptFile.DecryptChunks: chunks below 2^31 bytes; for longer ones see Decryptor.Feed.
- Sha256.Context.Update: messages shorter than 2^64 bits, as FIPS 180-4 has it.
- Sha256.DigestChunks: chunks below 2^31 bytes; for longer ones see Context.Update.
- FileTimes.ParseTime: the C library's number parser is a parameter.
- Floating-point comparisons, conversions, minimum and maximum, classification: none of them is used by the arithmetic, and all but the conversions round nothing.
- The instruction decoder and the execution of instructions other than memory accesses and the trap returns.
- XLEN other than 64; the code does not check misaligned superpages or reserved bits of a table entry, and neither does the model.
- Device registers: an access that is not RAM is an outcome of its own.
- Remapping of memory ranges, resetting single dirty bits, and the raw RAM pointer for devices.
- AES rounds and the SHA-256 compression function: both are arbitrary functions here.
- Byte encoding of WISP packets and listeners that call back into the client.
- Directory listing order, permissions and times of inodes, locks, base URLs, archives, preloading and command files.
- Transfers themselves: retries, and pieces that arrive after an error was reported.
- Counters that only memory limits are unbounded: reference and open counts (32 bits in the code), the total of the cache (64 bits), cluster and block numbers (ints, enough for images below 2^34 sectors).
- Interrupt controllers, virtio queues, consoles and the network cards.
