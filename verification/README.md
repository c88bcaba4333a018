# Exact division, cached block I/O and word helpers of the U-Boot headers

A Dafny model of code that lives in U-Boot's headers, with proofs of what it promises.
`dafny verify dfyconfig.toml` checks the whole project.

**Division by a constant.** `div64.h` replaces `n / b`, for a 64-bit dividend and a 32-bit divisor, by
multiplications in wrapping 64-bit words. `Words` gives the C operators on 32- and 64-bit words (wrapping
arithmetic modulo 2^32 and 2^64, bitwise operators defined bit by bit). `Reciprocal` is the mathematics: with
p = 2^ilog2(b), how far p * 2^64 / b may be over- or under-estimated, why trying the rounded-up multiplier at a
single dividend settles every dividend, why a failed try makes the biased rounded-down multiplier exact, and why
no 64-bit multiplier can then do without the bias. `Div64` is the macros and functions themselves, written with the
source's assignments in the source's order, and proved to compute those integers. `__arch_xprod_64` keeps its two
if-chains as methods of their own (`LowColumn`, and `CrossSum` / `CrossSumFree` for the two arms of the second),
because the inlined product of `__div64_const32` repeats one of them; likewise
`RoundedUp`, `RoundedDown` and `Reduce` are consecutive statements of `__div64_const32`. `Math64` holds the callers of `do_div` in
`linux/math64.h` and `linux/kernel.h`, including the 128-bit product and the 96-bit division made of 32-bit halves.

**Block I/O behind a cache.** `BlkSpec` states what drivers and a block cache are expected to do, and what follows
over every run of reads, writes and erases on any number of devices. `Blk` has the descriptor's operations and a
bounded cache as classes; the same cache object is the always-miss stubs when it is not enabled. A driver's answer
(return value, and the buffer or device contents it leaves) is a parameter, constrained only by the driver contract.
`Perform` and `PerformAll` run any operation, and any sequence of them, on a system's descriptors and take exactly the
steps the runs are made of. They assume one descriptor for each (if_type, devnum), the key the cache knows a device by.

**Smaller parts.** `Bitfield` (get/put laws, tables of disjoint fields, by-mask forms), `DebugUart` (number and string
printers with the parsers that undo them), `HiiStrings` (stepping through UCS-2 string blocks), `CpuMask` (iteration
over set bits). `Arith` has small facts about products and quotients.

Where the code does not do what its use suggests, the model keeps the code and states the exact condition:

- `for_each_cpu` evaluates `cpumask_next` once more after its last body. Every evaluation is defined exactly when a
  further set bit remains, that is when `num_cpus` is less than the number of set bits (and some bit is set); with
  `num_cpus` equal to that number, the bodies are right but the last advance shifts by 32. (`CpuMask.ForEachCpu`;
  mask 1 with one cpu in `CpuMask.LastAdvance`)
- `DIV_ROUND_UP_ULL` rounds correctly exactly when `ll + d - 1` does not wrap in the type of its operands, which is
  32 bits wide when both are `u32`: the sum is widened only afterwards. `DIV_ROUND_CLOSEST_ULL`, for the u64 dividends its
  comment names, does exactly when adding `d / 2` does not wrap. (`Math64.DivRoundUpUll`, `Math64.DivRoundClosestUll`;
  wrapping dividends in `Math64.RoundingWraps`)
- `__iter_div_u64_rem` returns its quotient modulo 2^32, which is the quotient exactly when the high half of the dividend
  is below the divisor; `mul_u64_u32_div` returns it modulo 2^64, which is the quotient exactly when `a * mul` is below
  `divisor * 2^64`. (`Math64.IterDivU64Rem`, `Math64.MulU64U32Div`; 2^32 / 1 and 2^63 * 2 / 1 in `Math64.QuotientsWrap`)
- `mul_u64_u64_shr` without 128-bit integers treats a shift of 128 or more like one between 64 and 127, which is right
  exactly when the product is below 2^(64 + shift mod 64). (`Math64.MulU64U64Shr`; the largest product shifted by 128 in
  `Math64.AliasedShiftExample`)
- `do_div`'s test multiplier wraps to 0 when the divisor is a power of two; the code never uses it then.

C's signed `1 << 31` (in `1 << ilog2(b)`, `1 << cpu` and `(1 << width) - 1`) is taken as the 32-bit pattern it produces.

## Model

| member | source | states |
|---|---|---|
| `Reciprocal.OnePointDecides` | u-boot/include/div64.h:71-94 | unless b is a power of two, the rounded-up multiplier is right at the one dividend the code tries if and only if it is right at every 64-bit dividend |
| `Reciprocal.TestPointIsWorst` | u-boot/include/div64.h:75-76 | the tried dividend is the largest 64-bit word that leaves remainder b - 1 |
| `Reciprocal.TestIff` | u-boot/include/div64.h:75-94 | the try succeeds if and only if x times the overshoot m * b - p * 2^64 stays below p * 2^64 |
| `Reciprocal.TestDecidesBias` | u-boot/include/div64.h:94-103 | the try succeeds if and only if some 64-bit multiplier with some power-of-two scale divides every dividend without a bias, so the bias is used exactly when it cannot be avoided |
| `Reciprocal.FailureBoundsShortfall` | u-boot/include/div64.h:94-106 | after a failed try, p * 2^64 mod b is positive and less than p |
| `Reciprocal.BiasDividesAll` | u-boot/include/div64.h:94-106 | after a failed try, (m * n + m) >> 64 divided by p, with m rounded down, is n / b for every 64-bit n |
| `Reciprocal.RoundUpError` | u-boot/include/div64.h:71-73 | m * b exceeds p * 2^64 by more than 0 and less than b, m lies in the upper half of a 64-bit word, and the rounded-down multiplier is m - 1 |
| `Reciprocal.LowBitDividesScale` | u-boot/include/div64.h:107-128 | the lowest set bit of the rounded-up multiplier divides p |
| `Reciprocal.ReductionKeepsMeaning` | u-boot/include/div64.h:107-128 | cancelling a common factor of multiplier and scale changes no quotient |
| `Reciprocal.ExactReciprocal` | u-boot/include/div64.h:88-93 | if m * c = 2^64 - 1, then (m * n + m) >> 64 is n / c for every 64-bit n |
| `Div64.RoundedUp` | u-boot/include/div64.h:71-73 | the wrapping two-piece expression is ceil(p * 2^64 / b) modulo 2^64 |
| `Div64.RoundUpFits` | u-boot/include/div64.h:71-73 | that value fits in 64 bits if and only if b is not a power of two; for a power of two the word is 0 |
| `Div64.RoundedDown` | u-boot/include/div64.h:104-106 | the wrapping two-piece expression is floor(p * 2^64 / b) modulo 2^64 |
| `Div64.InlineProduct` | u-boot/include/div64.h:78-84 | the product written out in the macro is the unbiased high word, its compared carry included |
| `Div64.CarryFreeBits` | u-boot/include/div64.h:170-179 | the mask test on m is clear bits 63 and 31 |
| `Div64.LowColumn` | u-boot/include/div64.h:168-177 | all three arms give ((bias ? m : 0) + m_lo * n_lo) >> 32 with nothing lost |
| `Div64.CrossSum` | u-boot/include/div64.h:184-189 | the arm with compared carry sums the cross products exactly, for any first partial sum that fits in 64 bits |
| `Div64.PartialSumFits` | u-boot/include/div64.h:168-189 | the first partial sum, biased or not, is at most 2^64 - 1 |
| `Div64.PartialSumAttained` | u-boot/include/div64.h:168-189 | m = n = 2^64 - 1 with bias reaches that bound, so no larger sum would fit |
| `Div64.ArchXprod64` | u-boot/include/div64.h:160-194 | for all 64-bit m and n, ((bias ? m : 0) + m * n) >> 64, every intermediate wrapping |
| `Div64.ReductionBitsMeaning` | u-boot/include/div64.h:113-115 | bit i of ___bits is set if and only if shifting m right by i is exact, i is at least 1, and bit 31 becomes clear |
| `Div64.ReductionIsBest` | u-boot/include/div64.h:107-128 | ___bits is 0 if and only if no exact shift makes m carry-free; otherwise its highest bit is the largest exact shift that clears bits 31 and 63 |
| `Div64.Reduce` | u-boot/include/div64.h:107-128 | both arms shift m and p right by one and the same count that drops no set bit of m: the largest such count that makes m carry-free if there is one, otherwise the largest such count, which leaves m odd unless it is carry-free; p stays positive |
| `Div64.ReducedDividesAll` | u-boot/include/div64.h:107-131 | after any exact shift of both, p is a non-zero power of two and the multiplier still divides every dividend |
| `Div64.SpecialBranch` | u-boot/include/div64.h:87-93 | if the odd part of b divides 2^64 - 1, dividing the trailing zeros out of n and multiplying with bias gives n / b |
| `Div64.Pow2IsSpecial` | u-boot/include/div64.h:87-93 | a power of two always takes the special branch, so the wrapped multiplier is discarded |
| `Div64.TenIsSpecial` | u-boot/include/div64.h:87-93 | 10 takes the special branch |
| `Div64.SevenNeedsBias` | u-boot/include/div64.h:94-106 | 7 takes the biased branch |
| `Div64.NineIsUnbiased` | u-boot/include/div64.h:107-128 | 9 takes the unbiased branch, in the arm with ___bits == 0 |
| `Div64.ElevenIsReduced` | u-boot/include/div64.h:107-128 | 11 takes the unbiased branch, in the arm with ___bits != 0 |
| `Div64.Div64Const32` | u-boot/include/div64.h:54-147 | the macro returns n / b for every 64-bit n and every non-zero 32-bit b |
| `Div64.RemainderWord` | u-boot/include/div64.h:215-219 | the remainder computed in wrapping 32-bit registers is n % base |
| `Div64.IsPowerOf2Means` | u-boot/include/linux/log2.h:49-53 | the masking test holds exactly for the powers of two |
| `Div64.Pow2Division` | u-boot/include/div64.h:208-211 | for a base that passes it, masking and shifting are % and / |
| `Div64.DoDiv` | u-boot/include/div64.h:26-34 | in every build and every branch, n is overwritten with n / base and n % base is returned |
| `Div64.LlDiv` | u-boot/include/div64.h:237-242 | the wrapper returns dividend / divisor |
| `Math64.IterDivU64Rem` | u-boot/include/linux/math64.h:118-135 | repeated subtraction gives the exact remainder and the quotient modulo 2^32, which is the quotient if and only if the dividend's high half is below the divisor |
| `Math64.MulWide` | u-boot/include/linux/math64.h:200-212 | the carry chain over 32-bit columns gives both words of the 128-bit product |
| `Math64.MulU64U64Shr` | u-boot/include/linux/math64.h:183-223 | the low word of the product shifted by the count, counts from 128 on aliasing onto 64 to 127; that is the low word of the properly shifted product if and only if the count is below 128 or the product below 2^(64 + count mod 64) |
| `Math64.AliasedShiftExample` | u-boot/include/linux/math64.h:218-222 | shifting (2^64 - 1)^2 by 128 leaves 2^64 - 2 instead of 0 |
| `Math64.MulU64U32Shr` | u-boot/include/linux/math64.h:166-179 | the low word of the shifted 96-bit product, wherever its shift counts are defined |
| `Math64.LongDivision` | u-boot/include/linux/math64.h:242-253 | dividing the high part, then its remainder joined with the low half, yields the two quotient digits, and the second fits in 32 bits |
| `Math64.MulU64U32Div` | u-boot/include/linux/math64.h:229-254 | a * mul / divisor modulo 2^64, through two in-place divisions; it is the quotient if and only if a * mul < divisor * 2^64 |
| `Math64.DivRoundUpUll` | u-boot/include/linux/kernel.h:65-68 | for operands of a common 32- or 64-bit type, the result is the ceiling of ll / d if and only if ll + d - 1 fits in that type |
| `Math64.DivRoundClosestUll` | u-boot/include/linux/kernel.h:109-117 | the result is a nearest integer to x / divisor if and only if x + divisor / 2 fits in 64 bits |
| `Math64.RoundingWraps` | u-boot/include/linux/kernel.h:65-117 | rounding the largest dividend up by 2 fails in both types, and rounding 2^64 - 1 to the closest multiple of 2 fails |
| `BlkSpec.PartHolds` | u-boot/include/blk.h:116-130 | any sub-range of an up-to-date cached run is the device's contents there |
| `BlkSpec.ReadStepCorrect` | u-boot/include/blk.h:428-447 | over any cache that only drops or reorders entries, a read that returns blkcnt delivers the contents, and the cache stays coherent with every device |
| `BlkSpec.StepCorrect` | u-boot/include/blk.h:428-461 | each operation keeps coherence with all devices and answers like the stub build, except that a hit may succeed where the driver would fail |
| `BlkSpec.EveryRun` | u-boot/include/blk.h:185-196 | over every run on any devices, with any driver answers: coherence throughout, full reads deliver current contents, and the build without a cache has the same device contents and returns the same results, except for hits where the driver would not have succeeded |
| `BlkSpec.ReadYourWrites` | u-boot/include/blk.h:428-461 | over every run, a complete read of any part of a completely written range returns what was written there, from device or cache, as long as no operation in between changes a block that is read |
| `BlkSpec.ReadBack` | u-boot/include/blk.h:428-461 | in particular a complete write and a complete read of the same range, with no other write or erase on the device between them, return the data written |
| `BlkSpec.ChangeSpares` | u-boot/include/blk.h:449-461 | a write or erase of a disjoint range, complete or not, leaves what a range holds |
| `Blk.BlockCache.Read` | u-boot/include/blk.h:116-130 | hits if and only if an entry contains all requested blocks, copies exactly that part and moves the entry to the front; a miss changes neither buffer nor cache |
| `Blk.BlockCache.Fill` | u-boot/include/blk.h:132-146 | adds the run in front, evicting the last entry if full, within the configured bounds |
| `Blk.BlockCache.Invalidate` | u-boot/include/blk.h:148-155 | drops exactly the device's entries |
| `Blk.BlockCache.Configure` | u-boot/include/blk.h:157-163 | sets the bounds on blocks per entry and on entries |
| `Blk.BlkDesc.DRead` | u-boot/include/blk.h:428-447 | a read step of the specification; a hit exactly when an entry can serve the request, which keeps every entry; otherwise the driver's answer, inserted in front only if complete and within the bounds, and else the cache is unchanged; bytes behind the requested blocks are untouched |
| `Blk.BlkDesc.DWrite` | u-boot/include/blk.h:449-454 | whatever the driver returns, no entry of the device survives, every entry of the other devices does, and all devices stay coherent |
| `Blk.BlkDesc.DErase` | u-boot/include/blk.h:456-461 | the same for an erase that may stop part-way |
| `Blk.Perform` | u-boot/include/blk.h:428-461 | any operation on a system's descriptors and their shared cache takes a step of the specification; a write or erase returns the driver's answer and leaves its contents on that device and no other, a read is a hit exactly when an entry can serve it and the driver's answer otherwise, a complete read that fits can be served again, and configuring sets both bounds |
| `Blk.PerformRead` | u-boot/include/blk.h:428-447 | the read case: hit exactly when an entry can serve it, the driver's answer otherwise |
| `Blk.PerformChange` | u-boot/include/blk.h:449-461 | the write and erase cases: the driver's answer is returned and its contents are on that device, every other device is unchanged |
| `Blk.PerformAll` | u-boot/include/blk.h:428-461 | any sequence of operations, run through the descriptors, is a run of the specification: coherent cache, the devices of the build without a cache, every write and erase answered by its driver, every read either the driver's answer or a hit where the driver would not have succeeded, and complete reads return what complete writes stored |
| `Bitfield.MaskBits` | u-boot/include/bitfield.h:42-45 | the mask has exactly the bits of the field that lie in the word |
| `Bitfield.MaskValue` | u-boot/include/bitfield.h:42-45 | the mask of a field inside the word is (2^width - 1) * 2^shift |
| `Bitfield.ExtractValue` | u-boot/include/bitfield.h:48-51 | extracting is reg / 2^shift modulo 2^width for a field inside the word, and reg / 2^shift for one that reaches its top |
| `Bitfield.ReplaceBits` | u-boot/include/bitfield.h:57-63 | inside the field the bits are those of the value, outside they are unchanged |
| `Bitfield.ExtractAfterReplace` | u-boot/include/bitfield.h:47-63 | what is put is what is read back, modulo 2^width for a field inside the word |
| `Bitfield.ReplaceWithExtracted` | u-boot/include/bitfield.h:47-63 | putting back what was read changes nothing |
| `Bitfield.ReplaceTwice` | u-boot/include/bitfield.h:53-63 | the last of two replacements of a field decides |
| `Bitfield.CoveredBit` | u-boot/include/bitfield.h:9-36 | after programming a table of disjoint fields, a bit of a field is that of its value |
| `Bitfield.UncoveredBit` | u-boot/include/bitfield.h:9-36 | and a bit of no field is unchanged |
| `Bitfield.OrderDoesNotMatter` | u-boot/include/bitfield.h:9-36 | two tables with the same entries, no two of them sharing a bit, give the same register in any order |
| `Bitfield.ShiftOfMask` | u-boot/include/bitfield.h:65-69 | the shift is recovered from every mask of a non-empty field, and is 0 for the empty one |
| `Bitfield.ShiftIsLowest` | u-boot/include/bitfield.h:65-69 | for every non-zero mask, contiguous or not, the shift is the position of its lowest set bit, and it is 0 for the mask 0 |
| `Bitfield.ByMaskAgrees` | u-boot/include/bitfield.h:71-89 | the by-mask forms agree with the shift and width forms on every mask made from them |
| `Bitfield.ReplaceByMaskWithExtracted` | u-boot/include/bitfield.h:71-89 | for every mask at all, contiguous or not, putting back what was read changes nothing |
| `Bitfield.ExtractByMaskAfterReplace` | u-boot/include/bitfield.h:71-89 | for every mask at all, what is put is read back as the value cut to the bits under the mask, none of them moved |
| `DebugUart.Uart.Printdec` | u-boot/include/debug_uart.h:181-191 | emits a canonical decimal numeral of the value |
| `DebugUart.CanonicalUnique` | u-boot/include/debug_uart.h:181-191 | a value has only one canonical decimal numeral, so the output is determined |
| `DebugUart.Uart.Printhex1` | u-boot/include/debug_uart.h:154-158 | emits the character of 0123456789abcdef at digit & 15 |
| `DebugUart.Uart.Printhex` | u-boot/include/debug_uart.h:160-164 | emits exactly `digits` lower-case digits, each position that of its own four bits, and they read back as the value modulo 16^digits |
| `DebugUart.Uart.Printhex2` | u-boot/include/debug_uart.h:166-169 | the two digits of the low byte, which read back as it |
| `DebugUart.Uart.Printhex4` | u-boot/include/debug_uart.h:171-174 | the four digits of the low 16 bits, which read back as them |
| `DebugUart.Uart.Printhex8` | u-boot/include/debug_uart.h:176-179 | the eight digits of the value, which read back as it |
| `DebugUart.HexDigitMeans` | u-boot/include/debug_uart.h:154-164 | digit j from the right is the character of 0123456789abcdef at value / 16^j modulo 16 |
| `DebugUart.DigitValueMeans` | u-boot/include/debug_uart.h:154-158 | the characters with a digit value are exactly those sixteen, each with its position |
| `DebugUart.SameLengthUnique` | u-boot/include/debug_uart.h:160-179 | numerals of equal length and value are equal, so the hexadecimal output is determined |
| `DebugUart.Uart.Printascii` | u-boot/include/debug_uart.h:148-152 | prints the C string up to its NUL, and removing one carriage return before each line feed gives it back |
| `DebugUart.WithoutWithCr` | u-boot/include/debug_uart.h:136-141 | adding carriage returns is undone on every string, carriage returns of its own included |
| `HiiStrings.BlockAt` | u-boot/include/efi_api.h:819-829 | a string block lies at an address if and only if type, u16 length and words are found there, and the next-block address is then its end |
| `HiiStrings.TextAt` | u-boot/include/charset.h:186-196 | a terminated text lies at an address if and only if u16_strlen finds its length and the words before the terminator are it |
| `HiiStrings.WalkInvertsLayout` | u-boot/include/efi_api.h:797-829 | stepping from an address succeeds with a list of strings if and only if that list, zero-free, is laid out there |
| `HiiStrings.LayoutIsWalked` | u-boot/include/efi_api.h:797-829 | stepping visits the start of every block and stops on the END block |
| `HiiStrings.WalkRecovers` | u-boot/include/efi_api.h:797-829 | a package of zero-free strings placed anywhere in memory is read back whole |
| `HiiStrings.WalkExample` | u-boot/include/efi_api.h:797-829 | two strings in the literal bytes of a package: block type 0x14, little-endian words, END type 0x00 |
| `HiiStrings.StartsAscend` | u-boot/include/efi_api.h:824-829 | every step strictly advances |
| `CpuMask.CpumaskNext` | u-boot/include/common.h:207-213 | returns the least set bit above cpu, and is undefined if and only if there is none |
| `CpuMask.ForEachCpu` | u-boot/include/common.h:215-218 | the bodies see the lowest num_cpus set bits in ascending order; all advances are defined if and only if a further set bit remains |
| `CpuMask.LastAdvance` | u-boot/include/common.h:215-218 | one cpu in the mask and num_cpus equal to 1 is a failing input of that condition |
| `CpuMask.SetBitsMembers` | u-boot/include/common.h:207-218 | the list of set bits has exactly the positions of the set bits |
| `CpuMask.SetBitsAscend` | u-boot/include/common.h:207-218 | it is strictly ascending, so each cpu occurs once |

## Left out

- Compiler matters of `div64.h`: constant-ness of the base and the compiler version check are free booleans, and the pointer type check is not modelled.
- `__div64_32` is not part of this model; `Div64.SlowDiv` stands for it with the quotient and remainder contract that `do_div` states.
- `ilog2`, `ffs` and `u16_strlen` are given their usual meaning as functions; `generic_ffs`, `generic_fls` and `generic_hweight32` are not modelled.
- A zero divisor: division by zero is undefined in C, so every division requires a non-zero divisor.
- The driver-model half of `blk.h`, statistics and device listing: prototypes and user interface.
- The block cache's own implementation is not part of the headers; `Blk.BlockCache` is one cache that meets the comments, and `BlkSpec` speaks about every cache that only drops or reorders entries.
- Hardware partitions: a cache key is (if_type, devnum), so the selected partition and the block size of a device are taken as fixed.
- Block numbers are unbounded: `lbaint_t` wrap-around in `start + blkcnt` belongs to drivers and cache, whose bodies are not in the headers.
- UART registers and `debug_uart_init`: a character put is appended to the output.
- Printhex: more than 8 digits is excluded, because the shift count then reaches 32, which C leaves undefined.
- MulU64U32Shr: a shift of 64 or more, or one above 32 with a non-zero high half is excluded, because `32 - shift` then wraps to a huge unsigned count, for which C leaves the shift undefined.
- Signed division helpers and 64-by-64 division of `math64.h`: single C operators or external functions.
- String block types other than SIBT_STRING_UCS2 and SIBT_END: no code in the headers steps over them, so a walk that meets one fails.
- Register maps, board headers, character tables and prototype-only headers: constants, or code that is not shown.
