# Verified models of the RISC-V simulator core

A Dafny 4.11 project that models six parts of the MPACT RISC-V simulator and proves what they are for:

* `Words`, `Gf2`, `CarrylessMultiply`, `BitPermutations`: the carry-less multiply instructions, `rev8`, `orc.b` and
  the rotates. A machine word is a sequence of bits, lowest first, of any width n (the source has 32 and 64). The
  product of polynomials over GF(2) is defined by its coefficients, with no loop; the loops are proved to compute parts
  of it. `Words` also proves that its shifts are the shifts of unsigned numbers.
* `CounterCsrs`: the offset-based counter CSRs. The two halves are proved to be one 64-bit register, step by step and
  over whole runs, and the exact condition is given under which that register is a plain one.
* `ActionPoints`: software breakpoints. Memory after any sequence of calls is the original image with `ebreak` over
  exactly the active instructions.
* `Clint`: the timer, its comparator and the interrupt lines.
* `HostFp`, `FpState`: the x86 and ARM floating-point status translations, the scope that lends the simulated status to
  the host, and the fcsr / frm / fflags views with their mutually recursive writes.
* `MultiplyDivide`: the M extension, for a register of any width, described by half its modulus.
* `Arithmetic`, `Halves`: division with remainder; 32-bit halves of 64-bit values.

Objects whose fields the source updates in place are classes (`SimpleCounter`, `CounterCsr`, `CounterCsrHigh`,
`Memory`, `ActionPointMemoryInterface`, `MipInterface`, `RiscVClint`, `HostInterface`, `Processor`, `ScopedFPStatus`,
`RiscVFPState`). Each method is proved equal to a function of the old state (`View()`), and the theorems about steps and
whole runs are about those functions. Loops of the source are loops with invariants. Subclasses that override `Set`
(the performance counters) are methods `SetPerformance` of the class they derive from, and the fcsr, frm and fflags
objects, which share one stored value, are one class with a method per access.

Standards: the Zbb and Zbc entries of the RISC-V Bit-Manipulation ISA-extensions v1.0, section 3.2.1 of the RISC-V
Privileged Architecture v20211203, and sections 7.1, 7.2 and 11.2 of the RISC-V Unprivileged ISA v20191213.

Where the code and its evident intent part, the model follows the code and the theorems say exactly when the intent is
met:

* the 32-bit `clmulr` loop ends one iteration early (`ClmulrRv32IsExactIff`, `ClmulrRv32LosesTheTopBit`);
* a low counter write can move the high half (`RunIsPlainIff`, `HighThenLowLoadsIff`, `HighThenLowCanMiss`);
* the second word of an 8-byte CLINT store is never written (`EightByteStoreIsReadIff`);
* writes of mtime leave mtip as it was: mtip is exact exactly when they have not carried mtime across mtimecmp
  (`ReachableStates`, `ExactIffSameSide`, `MtimeWriteKeepsExactIff`, `StaleCanBeInexact`), and becomes exact again
  within one period (`ExactWithinOnePeriod`);
* an update of mtimecmp by two stores can raise mtip on the way (`TwoStoreUpdateIsQuietIff`, `TwoStoreUpdateCanFire`);
* the held rounding mode written again after an illegal one stays marked invalid (`LegalWriteStaysInvalidIff`,
  `RewriteStaysInvalid`);
* set-bits and clear-bits on fcsr start from the stored flags (`FcsrBitAccessKeepsFlagsIff`,
  `SettingNoBitsLosesAFlag`);
* the end of an x86 scope keeps the overriding rounding mode and ARM shifts the rounding mode twice, so a later scope
  without an override may not run in the mode of frm (`DynamicScopeModeIff`, `StaticModeLeaks`,
  `ScopeKeepsDynamicModeIff`, `RoundingModeRoundTripIff`);
* two overlapping action points restored in the order of their insertion may not give the image back
  (`OverlapRestoresIff`, `OverlapLosesTheImage`);
* `WriteBreakpointInstruction` makes a new action point for an unknown address, where its header comment says that no
  action is taken (`UnknownAddressIsLeftAloneIff`, `UnknownAddressIsPatched`).

Assumptions about code that is not shown: an instruction operand is read sign- or zero-extended to the type named by
the instruction; the 64-bit multiply uses a 128-bit integer; a simple CSR has all-ones masks; a loaded or stored word is
little-endian; a memory byte never stored reads as 0.

## Model

| member | source | states |
|---|---|---|
| Words.ShiftsAreArithmetic | riscv/riscv_bitmanip_instructions.cc:192-204 | the shifts of bit sequences multiply and divide the unsigned number by a power of two, modulo the register size |
| Words.CutIsDivision | riscv/riscv_bitmanip_instructions.cc:397-397 | the low j bits of a rotate amount are its remainder by 2^j |
| Words.BitsAreDigits | riscv/riscv_bitmanip_instructions.cc:192-204 | bit k of a word is binary digit k of the unsigned number it stands for |
| Gf2.ProductRingLaws | riscv/riscv_bitmanip_instructions.cc:466-487 | the full carry-less product is commutative, associative and distributes over xor, with 1 neutral, for words of any widths |
| CarrylessMultiply.Clmul | riscv/riscv_bitmanip_instructions.cc:188-197 | the loop returns the low n coefficients of the polynomial product |
| CarrylessMultiply.Clmulh | riscv/riscv_bitmanip_instructions.cc:200-209 | the loop, which starts at iteration 1, returns coefficients n to 2n-1 |
| CarrylessMultiply.ClmulrRv64 | riscv/riscv_bitmanip_instructions.cc:490-499 | the 64-bit loop returns coefficients n-1 to 2n-2 |
| CarrylessMultiply.ClmulrRv32 | riscv/riscv_bitmanip_instructions.cc:212-221 | the 32-bit loop returns coefficients n-1 to 2n-2 of the product by b with its top bit cleared |
| CarrylessMultiply.ClmulIsRingMultiplication | riscv/riscv_bitmanip_instructions.cc:466-475 | clmul is multiplication modulo x^n: commutative, associative, distributive over xor, with 1 neutral |
| CarrylessMultiply.HighAndLowAreTheFullProduct | riscv/riscv_bitmanip_instructions.cc:466-487 | clmulh over clmul is the full product, as bits and as the number clmulh * 2^n + clmul; clmulh is commutative |
| CarrylessMultiply.ClmulrShiftedIsClmulh | riscv/riscv_bitmanip_instructions.cc:478-499 | clmulr shifted right by one is clmulh |
| CarrylessMultiply.ClmulrIsReversedClmul | riscv/riscv_bitmanip_instructions.cc:490-499 | clmulr is the reversal of clmul of the reversed operands |
| CarrylessMultiply.ClmulrRv32IsExactIff | riscv/riscv_bitmanip_instructions.cc:212-221 | the 32-bit loop agrees with clmulr exactly when b's top bit is 0 or a is 0 |
| CarrylessMultiply.ClmulrRv32LosesTheTopBit | riscv/riscv_bitmanip_instructions.cc:216-216 | for 1 times x^31 the 32-bit loop returns 0 instead of 1 |
| BitPermutations.Rev8Shift | riscv/riscv_bitmanip_instructions.cc:453-463 | the shift loop puts every bit in the same place of the opposite byte |
| BitPermutations.Rev8Span | riscv/riscv_b_instructions.cc:255-270 | the byte-swap loop over spans computes the same word |
| BitPermutations.Rev8MovesBytes | riscv/riscv_bitmanip_instructions.cc:453-463 | byte q of the result is byte n/8 - 1 - q of the operand |
| BitPermutations.Rev8IsAnInvolution | riscv/riscv_bitmanip_instructions.cc:175-185 | reversing the bytes twice changes nothing |
| BitPermutations.OrcbRunningMask | riscv/riscv_bitmanip_instructions.cc:438-450 | the running-mask loop fills exactly the nonzero bytes |
| BitPermutations.OrcbIndexedMask | riscv/riscv_b_instructions.cc:242-253 | the indexed-mask loop computes the same word |
| BitPermutations.OrcbFillsBytes | riscv/riscv_bitmanip_instructions.cc:438-450 | every result byte is all ones where the operand's byte differs from 0, and 0 where it does not |
| BitPermutations.OrcbIsIdempotent | riscv/riscv_bitmanip_instructions.cc:160-172 | filling nonzero bytes twice is filling them once |
| BitPermutations.OrcbCommutesWithRev8 | riscv/riscv_bitmanip_instructions.cc:438-463 | orc.b and rev8 commute |
| BitPermutations.TwoShiftsRotate | riscv/riscv_bitmanip_instructions.cc:394-423 | the two-shift code computes the rotate functions, amount 0 included |
| BitPermutations.RotatesMoveBits | riscv/riscv_bitmanip_instructions.cc:394-423 | rol moves bit k to place (k + v) mod n and ror to (k - v) mod n, v being the whole unsigned second operand |
| BitPermutations.RotatesCompose | riscv/riscv_bitmanip_instructions.cc:140-157 | rotates by s and then t rotate by (s + t) mod n, and rol and ror undo each other |
| BitPermutations.WordRotatesAgree | riscv/riscv_b_instructions.cc:200-230 | rolw and rorw by conversion and by mask are the same function |
| BitPermutations.WordRotatesMoveBits | riscv/riscv_b_instructions.cc:200-230 | rolw and rorw move bit k of the low half by the second operand modulo 32, and the high half is filled with bit 31 |
| CounterCsrs.CounterCsr.Get | riscv/riscv_counter_csr.h:45-51 | reads the counter plus the offset, modulo the CSR's width |
| CounterCsrs.CounterCsr.Set | riscv/riscv_counter_csr.h:55-58 | stores the difference to the counter, after which the CSR reads the value, cut to its width |
| CounterCsrs.CounterCsr.SetPerformance | riscv/riscv_counter_csr.h:86-93 | stores one less, after which the CSR reads the value one count later |
| CounterCsrs.CounterCsrHigh.Get | riscv/riscv_counter_csr.h:108-114 | reads the top half of the 64-bit sum of counter and both offsets |
| CounterCsrs.CounterCsrHigh.Set | riscv/riscv_counter_csr.h:118-127 | stores the high offset with the carry of the low sum taken off: for a 64-bit value of any size the CSR then reads its low 32 bits, and the low CSR reads as before |
| CounterCsrs.CounterCsrHigh.SetPerformance | riscv/riscv_counter_csr.h:163-175 | stores it and decrements both offsets, borrowing from the high one: one count later the pair reads the value over the low half as it was |
| CounterCsrs.CounterCsrHigh.LowCsrIsTheLowHalf | riscv/riscv_counter_csr.h:45-93 | with both CSRs tied to one counter the low CSR's read and its two writes are those of the low half of the 64-bit register |
| CounterCsrs.CounterCsr.SetCounter | riscv/riscv_counter_csr.h:60-69 | a CSR counts with the counter it is tied to |
| CounterCsrs.CounterCsrHigh.SetCounter | riscv/riscv_counter_csr.h:130-136 | the same for the high CSR, with both offsets kept |
| CounterCsrs.CounterCsrHigh.CountAdvances | riscv/riscv_counter_csr.h:45-114 | when the counter both CSRs are tied to counts k, the pair reads k more, modulo 2^64, and the low CSR its low half |
| CounterCsrs.UnwrittenReadsTheCounter | riscv/riscv_counter_csr.h:45-114 | before any write the CSRs read the counter itself |
| CounterCsrs.ReadsAreOneSum | riscv/riscv_counter_csr.h:108-114 | the two CSR reads are the halves of one 64-bit sum, whatever the offsets |
| CounterCsrs.AdvanceAdds | riscv/riscv_counter_csr.h:45-51 | a counter increment of k adds k to the 64-bit register, modulo 2^64 |
| CounterCsrs.HighWriteReplacesTheTopHalf | riscv/riscv_counter_csr.h:118-126 | a high write replaces exactly the top half |
| CounterCsrs.LowWriteMovesTheTopHalf | riscv/riscv_counter_csr.h:55-58 | a low write v replaces the bottom half and moves the top half by [v < counter_low] - [counter_low + old offset >= 2^32] |
| CounterCsrs.LowThenHighLoads | riscv/riscv_counter_csr.h:55-126 | a low and then a high write load any 64-bit value |
| CounterCsrs.HighThenLowLoadsIff | riscv/riscv_counter_csr.h:55-126 | in the other order exactly when the low write leaves the carry of the low sum as it was |
| CounterCsrs.PerformanceHighWriteIsEarly | riscv/riscv_counter_csr.h:163-175 | the two decrements are one 64-bit decrement with borrow |
| CounterCsrs.PerformanceHighWriteTakesEffect | riscv/riscv_counter_csr.h:163-175 | one count after a high performance write the register reads the value over the low half as it was |
| CounterCsrs.PerformanceLowWriteTakesEffect | riscv/riscv_counter_csr.h:86-93 | one count after a low performance write the low half reads the value, and by how much the top half moved |
| CounterCsrs.PerformanceWritesLoad | riscv/riscv_counter_csr.h:86-175 | low write, count, high write, count loads any 64-bit value |
| CounterCsrs.RunRefinesDisturbed | riscv/riscv_counter_csr.h:45-126 | over every run of counts and plain and performance writes the CSRs read a 64-bit register given as a function of itself and the counter |
| CounterCsrs.RunLowIsPlain | riscv/riscv_counter_csr.h:45-175 | over every run the low half is that of the plain 64-bit register |
| CounterCsrs.RunIsPlainIff | riscv/riscv_counter_csr.h:45-175 | a run is a run of the plain 64-bit register at every step exactly when no low write moves across the counter's low half, as told from the first register value, the first count and the events |
| CounterCsrs.SingleCsrIsARegister | riscv/riscv_counter_csr.h:45-93 | the single CSR of a 64-bit core reads the value written plus the counts since, performance writes one count later |
| ActionPoints.ActionPointMemoryInterface.WriteOriginalInstruction | riscv/riscv_action_point_memory_interface.cc:43-61 | the new memory, the unchanged map, the status and the invalidation, as functions of the old state |
| ActionPoints.ActionPointMemoryInterface.WriteBreakpointInstruction | riscv/riscv_action_point_memory_interface.cc:63-93 | the same, with a new map entry for a new address and no change for an unknown size |
| ActionPoints.SizeOfEncoding | riscv/riscv_action_point_memory_interface.cc:95-100 | an encoding 4q + r with r < 3 has size 2, one 32q + 4r + 3 with r < 7 has size 4, and one 32q + 31 has no known size |
| ActionPoints.SizeFromFirstByte | riscv/riscv_action_point_memory_interface.cc:66-71 | the size found at an address is told by the first byte in memory |
| ActionPoints.NewBreakpoint | riscv/riscv_action_point_memory_interface.cc:63-93 | a new breakpoint stores 0x73 0x00 0x10 0x00 over a 4-byte and 0x02 0x90 over a 2-byte instruction, changes no other byte, and saves the little-endian instruction with its size |
| ActionPoints.EbreakFields | riscv/riscv_action_point_memory_interface.h:42-43 | the stored words are ebreak and c.ebreak, field by field |
| ActionPoints.StatusOfCall | riscv/riscv_action_point_memory_interface.cc:45-77 | restoring fails exactly at an address that was never saved, inserting exactly at a new address whose first byte is 31 modulo 32 |
| ActionPoints.FreshReadIsOriginal | riscv/riscv_action_point_memory_interface.cc:66-84 | at an unpatched address the size and word read are the original ones, though the load may cover a patched neighbour |
| ActionPoints.FailedCallsChangeNothing | riscv/riscv_action_point_memory_interface.cc:45-77 | a call that fails leaves memory and the map alone |
| ActionPoints.SavedEntriesNeverChange | riscv/riscv_action_point_memory_interface.cc:63-84 | over any run, overlapping or not, a saved entry is never changed |
| ActionPoints.RunIsOverlay | riscv/riscv_action_point_memory_interface.cc:43-93 | after any calls at non-overlapping instructions memory is the image with ebreak over exactly the active ones, and the map holds the original words |
| ActionPoints.CallStatus | riscv/riscv_action_point_memory_interface.cc:43-93 | every call returns the status that the original image and the earlier calls determine |
| ActionPoints.RestoringAllBringsTheImageBack | riscv/riscv_action_point_memory_interface.cc:43-61 | restoring the active set in any order gives back the image byte for byte |
| ActionPoints.OverlapRestoresIff | riscv/riscv_action_point_memory_interface.cc:43-93 | for any two addresses, restoring in reverse order gives the image back, and restoring in order of insertion does exactly when every byte the two patches share already holds the first one's ebreak |
| ActionPoints.OverlapLosesTheImage | riscv/riscv_action_point_memory_interface.cc:43-93 | an overlapping pair for which restoring in order of insertion loses the image and restoring in reverse does not |
| ActionPoints.PatchingKeepsBoundaries | riscv/riscv_action_point_memory_interface.cc:69-101 | a walk by instruction size visits the same addresses whatever breakpoints on its boundaries are inserted and restored |
| ActionPoints.PatchedSize | riscv/riscv_action_point_memory_interface.h:42-43 | an ebreak has the size of the instruction it replaces |
| ActionPoints.UnknownAddressIsLeftAloneIff | riscv/riscv_action_point_memory_interface.cc:66-84 | a breakpoint at an unknown address changes nothing exactly when no instruction of known size is there |
| ActionPoints.UnknownAddressIsPatched | riscv/riscv_action_point_memory_interface.h:57-59 | an unknown address becomes an action point, though the comment says that no action is taken |
| Clint.RiscVClint.constructor | riscv/riscv_clint.cc:36-46 | the state after construction, with the calls made on mip |
| Clint.RiscVClint.Reset | riscv/riscv_clint.cc:49-54 | clears mtime and msip and nothing else |
| Clint.ResetClearsTimeAndMsip | riscv/riscv_clint.cc:49-54 | Reset leaves the prescaler, mtimecmp and mtip as they were |
| Clint.ConstructedLine | riscv/riscv_clint.cc:36-46 | construction counts one SetValue and leaves mtip and its line high and exact, by exactly the calls listed |
| Clint.RiscVClint.SetValue | riscv/riscv_clint.cc:57-67 | one step of the prescaled timer |
| Clint.RiscVClint.Write | riscv/riscv_clint.cc:159-227 | the new state for a 4-byte store at every offset |
| Clint.RiscVClint.Read | riscv/riscv_clint.cc:142-192 | the register half at every offset |
| Clint.RiscVClint.Store | riscv/riscv_clint.cc:119-134 | the new state for a store of every size |
| Clint.RiscVClint.Load | riscv/riscv_clint.cc:71-92 | the words loaded for every size |
| Clint.NarrowStoreIsLoaded | riscv/riscv_clint.cc:71-134 | a store of 1, 2 or 4 bytes is loaded back zero-extended at 0x4000, 0x4004, 0xbff8 and 0xbffc, as its low bit at 0, and is ignored elsewhere |
| Clint.LoadsAreParts | riscv/riscv_clint.cc:71-92 | a narrow load is the low part of the 4-byte load, an 8-byte load two 4-byte loads |
| Clint.StoreIsAStep | riscv/riscv_clint.cc:119-134 | a store of a supported size is the store event of a run at the low 16 bits of the address |
| Clint.TickAddsOne | riscv/riscv_clint.cc:57-61 | 0 <= updateCounter < p, and mtime * p + updateCounter grows by exactly 1, modulo 2^64 * p |
| Clint.MtimeAfter | riscv/riscv_clint.cc:57-61 | after k SetValue calls mtime has grown by (updateCounter + k) / p, modulo 2^64 |
| Clint.MtimeAfterStore | riscv/riscv_clint.cc:49-174 | a write of the low half of mtime restarts the prescaler; every other store, and Reset, leaves it running |
| Clint.TimerFiresOnTime | riscv/riscv_clint.cc:57-67 | mtip is high exactly from SetValue number (mtimecmp - mtime) * p - updateCounter on, with one set_mtip call |
| Clint.LineIsDrivenAtEdges | riscv/riscv_clint.cc:57-227 | over every run from any state set_mtip is called only with a new level, and the last level is mtip |
| Clint.ReachableStates | riscv/riscv_clint.cc:36-227 | in every reachable state both lines carry their registers, mtip is the comparison made at the last increment or compare write, and is exact exactly when mtime is now on the same side of mtimecmp as it was then |
| Clint.ExactIffSameSide | riscv/riscv_clint.cc:57-227 | the same over every run from any state in which mtip is exact |
| Clint.MtimeWriteKeepsExactIff | riscv/riscv_clint.cc:220-227 | a write of half of mtime, or a reset, keeps mtip exact exactly when it does not carry mtime across mtimecmp |
| Clint.ExactWithinOnePeriod | riscv/riscv_clint.cc:57-67 | from any state mtip is exact from SetValue number p - updateCounter on, and nothing happens before it |
| Clint.StaleCanBeInexact | riscv/riscv_clint.cc:221-223 | a run from construction in which a write of mtime past mtimecmp leaves mtip low |
| Clint.ThreeStoreUpdateIsQuiet | riscv/riscv_clint.cc:201-218 | the three-store update of mtimecmp never raises mtip, for all old and new values and all interleaved ticks below both |
| Clint.TwoStoreUpdateIsQuietIff | riscv/riscv_clint.cc:201-218 | a two-store update of mtimecmp, in either order, keeps a low mtip low exactly when mtime is below the intermediate and the new value |
| Clint.TwoStoreUpdateCanFire | riscv/riscv_clint.cc:201-218 | from a reachable state with mtime below both values, two stores raise mtip on the way |
| Clint.FourByteStoreIsRead | riscv/riscv_clint.cc:142-181 | what a 4-byte store is read back as, at every offset |
| Clint.OtherRegistersAreKept | riscv/riscv_clint.cc:142-181 | a store leaves the other register halves alone |
| Clint.EightByteStoreIsReadIff | riscv/riscv_clint.cc:128-130 | at every address of mtimecmp or mtime, an 8-byte store is read back exactly when the high word already held its value |
| HostFp.X86TableIsBitwise | riscv/riscv_fp_host_x86.cc:49-112 | all 64 entries of the x86 flag table move each flag to its RISC-V place and drop the denormal flag |
| HostFp.FlagsRoundTrip | riscv/riscv_fp_host_x86.cc:176-189 | flags written through the interface are read back, on both hosts |
| HostFp.RoundingModeRoundTripIff | riscv/riscv_fp_host_arm.cc:150-165 | which rounding modes survive a write, on x86 and on ARM |
| HostFp.StatusWriteSetsMode | riscv/riscv_fp_host_x86.cc:184-189 | on x86 a status write stores the host mode of frm, on ARM always mode 0 |
| HostFp.RunInScope | riscv/riscv_fp_host_x86.cc:225-288 | a scope leaves the cached status with the raised flags, and the processor with its own status exactly when that has no undefined high bits |
| HostFp.PackingRestores | riscv/riscv_fp_host_arm.cc:205-285 | the processor's status survives the packing exactly when it has no undefined high bits |
| HostFp.ScopeAddsRaisedFlags | riscv/riscv_fp_host_x86.cc:225-288 | a scope or-s exactly the raised flags into the cached flags, on both hosts and under any rounding override |
| HostFp.RaisedFlagsByBit | riscv/riscv_fp_host_x86.cc:49-112 | which host flag raises each of the five RISC-V flags, on both hosts |
| HostFp.ScopeCleansStatus | riscv/riscv_fp_host_x86.cc:192-194 | whatever was cached, after a scope every x86 exception is masked and FPCR holds nothing but the rounding field |
| HostFp.ScopeMode | riscv/riscv_fp_host_arm.cc:180-266 | a scope runs in the overriding rounding mode, or in the cached one |
| HostFp.LentModes | riscv/riscv_fp_host_arm.cc:123-131 | the field each override lends, in the bits of the host: towards zero 11, down 10 on ARM and 01 on x86, up 01 on ARM and 10 on x86, to nearest 00 |
| HostFp.LentIsRead | riscv/riscv_fp_host_arm.cc:133-159 | what a scope lends is read back as the override (4 to 6 as 0) with the flags as they were |
| HostFp.HostModeIsRead | riscv/riscv_fp_host_arm.cc:133-159 | the rounding field of any status is the one for the RISC-V mode read from it |
| HostFp.ScopeKeepsDynamicModeIff | riscv/riscv_fp_host_x86.cc:272-288 | the cached rounding mode survives a scope except on x86 under another mode |
| FpState.RiscVFPState.FcsrWrite | riscv/riscv_fp_state.cc:116-122 | the mutually recursive writes end, in the state given by a function without recursion |
| FpState.RiscVFPState.SetRoundingMode | riscv/riscv_fp_state.cc:74-95 | the same for a change of rounding mode |
| FpState.RiscVFPState.FrmWrite | riscv/riscv_fp_state.cc:164-169 | the same for a write of frm |
| FpState.RiscVFPState.FflagsWrite | riscv/riscv_fp_state.cc:139-144 | the same for a write of fflags |
| FpState.RiscVFPState.FcsrSetBits | riscv/riscv_csr.h:459-460 | set-bits on fcsr writes back the stored value |
| FpState.LegalModeIsStored | riscv/riscv_fp_state.cc:91-94 | a change to another legal mode holds it, marks it valid, stores it in frm and keeps the live flags |
| FpState.FcsrWriteIsRead | riscv/riscv_fp_state.cc:105-136 | after a write of v fcsr reads v & 0xff, fflags its low five bits and frm the next three |
| FpState.FrmWriteKeepsFlags | riscv/riscv_fp_state.cc:158-169 | a write of frm is read back and keeps the live flags |
| FpState.FflagsWriteIsRead | riscv/riscv_fp_state.cc:133-144 | a write of fflags is read back and keeps frm |
| FpState.FflagsWriteKeepsMode | riscv/riscv_fp_state.cc:139-144 | a write of fflags changes neither the held mode nor its validity |
| FpState.RunKeepsInv | riscv/riscv_fp_state.cc:74-169 | over every run the held mode is legal, is frm whenever frm is legal or marked valid, and every stored flag is live |
| FpState.HeldIsTheLastLegalMode | riscv/riscv_fp_state.cc:74-169 | over every run the held mode is the last legal mode that frm held |
| FpState.FiveModesAreLegal | riscv/riscv_fp_state.cc:75-94 | a first write of frm is accepted and held exactly for modes 0 to 4 |
| FpState.IllegalModeIsRefused | riscv/riscv_fp_state.cc:86-89 | a change to a mode above 4 marks the mode invalid and leaves everything else |
| FpState.LegalWriteStaysInvalidIff | riscv/riscv_fp_state.cc:75-169 | a legal mode written through fcsr, through frm or directly stays marked invalid exactly when it is the mode held while marked invalid |
| FpState.RewriteStaysInvalid | riscv/riscv_fp_state.cc:75-94 | writing 5 and then 0 to frm leaves a legal frm marked invalid |
| FpState.FlagsAreSticky | riscv/riscv_fp_state.cc:133-169 | over any run of flag setting, frm writes, mode changes and scopes, fflags gains exactly the flags raised, on both hosts |
| FpState.FieldBitAccessIsRead | riscv/riscv_csr.h:459-463 | set-bits and clear-bits on fflags and frm or the argument into the field or take it out, and keep the other field |
| FpState.FcsrBitAccessOnFrm | riscv/riscv_csr.h:459-463 | set-bits and clear-bits on fcsr do the same to frm |
| FpState.FcsrBitAccessKeepsFlagsIff | riscv/riscv_csr.h:459-463 | set-bits and clear-bits on fcsr do what they say to the live flags exactly when no live flag outside the argument is missing from the stored value |
| FpState.SettingNoBitsLosesAFlag | riscv/riscv_csr.h:459-460 | setting no bits in fcsr clears a raised flag |
| FpState.DynamicScopeModeIff | riscv/riscv_fp_host_x86.cc:225-288 | over every run of CSR accesses, mode changes and scopes, a scope without an override runs in the mode of frm exactly when the last override since the last status write named the same host mode (x86), or frm stands for host mode 0 (ARM) |
| FpState.RunStaysLoadable | riscv/riscv_fp_host_x86.cc:184-194 | over every run the cached status and every status lent have nothing set but flags and rounding field, with every x86 exception masked |
| FpState.StaticModeLeaks | riscv/riscv_fp_host_x86.cc:280-283 | an x86 scope rounding to zero leaves that mode for the next dynamic scope, while frm is 0 |
| MultiplyDivide.MulhsuNegated | riscv/riscv_m_instructions.cc:139-157 | the negate, multiply, negate route returns the floor of the mixed product over 2^n |
| MultiplyDivide.MixedHalves | riscv/riscv_m_instructions.cc:63-69 | so does the wrap-and-reinterpret route, and mulhsu * 2^n + mul is the exact mixed product |
| MultiplyDivide.SignedHalves | riscv/riscv_m_instructions.cc:117-130 | mulh * 2^n + mul is the exact signed product |
| MultiplyDivide.UnsignedHalves | riscv/riscv_m_instructions.cc:132-137 | mulhu * 2^n + mul is the exact unsigned product |
| MultiplyDivide.SignedDivision | riscv/riscv_m_instructions.cc:159-184 | a = div * b + rem modulo 2^n in all cases, exactly unless the least value is divided by -1, with representable results |
| MultiplyDivide.SpecialDivisions | riscv/riscv_m_instructions.cc:159-191 | division by zero gives all ones and the dividend as remainder; the least value divided by -1 gives itself and 0 |
| MultiplyDivide.DivisionIsTheOnlyPair | riscv/riscv_m_instructions.cc:71-96 | otherwise div and rem are the only pair with \|rem\| < \|b\| and no remainder of the opposite sign to a |
| MultiplyDivide.UnsignedDivision | riscv/riscv_m_instructions.cc:169-191 | a = divu * b + remu in all cases, with remu < b when b is not 0 |
| MultiplyDivide.WordForms | riscv/riscv_m_instructions.cc:193-239 | every w form is the 32-bit instruction on the low halves, sign-extended |
| MultiplyDivide.SpecialWordDivisions | riscv/riscv_m_instructions.cc:203-239 | the same for the w forms, in terms of the low 32 bits of the registers: quotient -1, remainder the sign-extended low half |

## Left out

- Decoding, operand fetch and register write-back: an instruction is a function or method of its operand values.
- F and D arithmetic: one host operation is an arbitrary setting of status flags; its numeric result is not modelled.
- ScopedFPRoundingMode: a scope that saves and restores the host status and never touches the cached one.
- Rebinding a counter to another one during a run, and the masks of the base CSR class, which are all ones here.
- Instruction addresses are unbounded: an instruction whose bytes wrap around the end of the 64-bit address space is not modelled.
- Program stores into patched instructions: only breakpoint calls change memory in a run.
- CLINT periods below 1, vector accesses, and the instruction executed after a load.
- Raw Set and Reset on the fcsr object, which bypass its write.
- Signed overflow in the 32-bit multiply of `mulw`, undefined in C++, is taken as wrap-around.
- The other bit-manipulation instructions (counts, min and max, extensions, single-bit operations, shift-add): single expressions.
- Debug shell, semihosting, PLIC, PMP, A-extension and vector instructions, decoders and assembler.
