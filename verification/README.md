# Verified models of a RISC-V core and its reference model

A Dafny model of the hardest parts of a RISC-V core written in Verilog, of the independent Python
reference model it is checked against (`sim/tools/iss.py`), and of the tools around them, with the
properties they are built to have proved for all inputs and all runs. Every `posedge clk` block is
one transition whose right-hand sides read the registers before the edge; the combinational outputs
are functions of the same registers and inputs.

| part | files | what is proved |
|---|---|---|
| write-back data cache | `DataCache`, `CacheRefinement`, `FlatMemory`, `CacheRuns`, `CacheFlush`, `CacheLiveness`, `CacheReplacement`, `DataCacheUnit` | cache plus backing memory is a flat byte memory over every run, requests and flushes are served when due, flushes write back exactly what is dirty, LRU and round-robin choose the way they promise |
| floating point and division | `PowersOfTwo`, `F32`, `F32Normalize`, `F32Rounding`, `FpRound`, `RestoringDivision`, `IntegerDivider`, `FloatDivider`, `FloatSqrt`, `FusedMultiplyAdd`, `FloatMeaning`, `FloatOperations` | the reference rounds as IEEE 754 asks, each iterative or fused unit computes exactly the reference's result, and that is the exact value rounded as its mode's encoding says |
| privilege and traps | `Privilege`, `PrivilegeRules`, `CsrFile` | lower privileges cannot touch higher state over whole runs, traps nest and return, the register file simulates the reference |
| page tables | `PageWalk`, `PageRules`, `SuperpageExpansion` | both walkers map exactly what the entries allow and are one walk, and superpages may be split without any translation noticing |
| device tree | `DeviceTree` | what the writer emits reads back exactly, and its checker accepts exactly the well-formed trees |
| free list | `FreeList` | the ring is a FIFO and no physical register is ever lost or handed out twice |
| shared helpers | `Wrappers`, `Arithmetic` | an option type; quotients, remainders and bits of integers |
| program generator | `ConstantBuilder`, `JumpEncoding`, `GeneratedPrograms` | generated programs are safe and halt in every run, and built constants are exact |

Each clocked unit is a class whose fields are its registers (`DCache`, `DataMemory`, `Divider`,
`FDivider`, `FSqrt`, `CsrUnit`, `FreeListUnit`), each object of the Python tools a class with its
fields (`Iss`, `FdtBuilder`). A class method states its whole new state as a function of the old
one, and the theorems are about that function.

Places where the code does not do what a reader would expect, kept as the code has them:

- `design/fp_round.vh` leaves the inexact flag clear when a result is exact but below 2^-126 and so
  flushed to zero; `sim/tools/iss.py` raises it. Result bits agree on all that the units hand over.
  For each unit the flags are proved equal exactly outside that case; the square root never meets it.
- A store hit in `design/DCache.v` is acknowledged even when a flush is accepted in the same cycle,
  and is then lost. The refinement therefore assumes what the unit's caller guarantees: requests
  and flushes do not overlap.
- `head_r` in `design/FreeList.v` moves only on `commit_en0`, so a lone `commit_en1` corrupts the
  ring even when its query was granted; nor does the unit check that reclaims fit, so one reclaim
  too many overwrites a queued register.
- On the reserved CSR operation 00, `design/CSR.v` writes and `sim/tools/iss.py` clears.
- `const64_to_reg_instrs` documents that the 32-bit builder sign-extends its constant; it does so
  except for 0x7FFFF800 to 0x7FFFFFFF. The 64-bit result is right all the same.
- The size check of `gen_program` counts one trailing instruction where it emits two.

`dafny verify dfyconfig.toml` checks the whole project.

## Model

| member | source | states |
|---|---|---|
| `DataCache.AccumulatedHit` | design/DCache.v:299-323 | with at most one valid way per tag in a set, the or-accumulated hit data and line index are that way's word and line, for any number of ways |
| `DataCache.VictimInRange` | design/DCache.v:358-367 | under LRU the or-accumulated index names a real way that has the oldest rank, and no other way has it; under round-robin it is a real way too |
| `DataCache.TouchRanks` | design/DCache.v:912-924 | lru_touch keeps the ranks of a set a permutation of 0..WAYS-1 |
| `DataCache.PrologueShape` | design/DCache.v:1009-1033 | the updates ahead of the state case (pulse default, recency touch, hit-under-miss capture) keep every array size, register range, ranking and tag uniqueness |
| `CacheRefinement.ViewHeld` | design/DCache.v:304-323 | the CPU view of a word does not depend on which holding way is chosen: it is the word of any trustworthy holder |
| `CacheRefinement.HitRdArm` | design/DCache.v:1288-1290 | the hit-read cycle answers a load with the view of its address and leaves view and invariant alone |
| `CacheRefinement.StoreHitArm` | design/DCache.v:1110-1144 | a store hit changes the view at exactly the stored word, by exactly the merged bytes, and keeps the invariant |
| `CacheRefinement.MissArm` | design/DCache.v:1214-1262 | allocating a miss changes nothing visible and, when the victim is dirty, starts its writeback from the right base address |
| `CacheRefinement.WbBeatView` | design/DCache.v:1292-1340 | an acknowledged writeback beat changes one backing word that the dirty line shadows, so the view is unchanged |
| `CacheRefinement.EnterFillView` | design/DCache.v:1292-1340 | dropping the victim from the view when the fill starts is sound because it is clean by then |
| `CacheRefinement.FillMidBeat` | design/DCache.v:1341-1379 | overwriting the victim word by word while its old tag is still marked valid does not show in the view, and the words fetched so far are the backing ones with the missing store merged in |
| `CacheRefinement.FillAnswer` | design/DCache.v:1428-1483 | on the last beat the response is the view of the requested word, also when that word is the one arriving in the same cycle |
| `CacheRefinement.FlushScanArm` | design/DCache.v:1381-1397 | a flush scan step either skips a clean line or starts the writeback of a dirty one; scanned lines stay clean, and the view is unchanged |
| `CacheRefinement.StepRefines` | design/DCache.v:982-1397 | every legal clock edge, from every state that satisfies the invariant and for every choice of m_ack, keeps the invariant, answers loads with the view, and changes the view only at an answered store, by exactly its bytes |
| `FlatMemory.DataMemory.Clock` | design/DataMemoryBRAM.v:105-175 | one edge of the byte memory, for every access inside it, aligned or not: the store lands in place and the latched read returns the bytes from before it, extended as funct3 asks |
| `FlatMemory.AccessMeans` | design/DataMemoryBRAM.v:105-175 | the accesses compared are exactly bytes anywhere and naturally aligned halves and words, inside the memory |
| `FlatMemory.LoadMeans` | design/DataMemoryBRAM.v:130-175 | the numbers lb, lh, lw, lbu and lhu give: the little-endian bytes, sign-extended for lb and lh alone |
| `FlatMemory.StoreMeans` | design/DataMemoryBRAM.v:105-128 | sb, sh and sw replace one, two or four bytes by the register's low bytes in order, and no other byte |
| `FlatMemory.ReadFromWord` | design/DataMemoryBRAM.v:130-175 | reading bytes of the flat memory equals the cache's width selection on the containing word, for all aligned accesses |
| `FlatMemory.WriteIntoWord` | design/DataMemoryBRAM.v:105-128 | a flat-memory store equals the cache's byte merge on the containing word and leaves every other word alone |
| `CacheRuns.StepServes` | design/DCache.v:982-1483 | over bytes: an edge that answers a request performs exactly that flat-memory access, any other edge performs none |
| `CacheRuns.RunServes` | design/DCache.v:982-1483 | over every legal run, the answers given are exactly those of the flat memory serving the same requests in order, whatever the bus timing and wherever flushes fell |
| `CacheRuns.ResetClears` | design/DCache.v:982-1007 | after reset no line is valid or dirty, nothing is pending or announced, pointers are zero and ranks in order; tags, data and latches are as they were |
| `CacheRuns.ResetInv` | design/DCache.v:982-1007 | reset establishes the invariant over any backing memory, with the view equal to it, whatever the registers it leaves alone held |
| `CacheRuns.CacheIsFlatMemory` | design/DCache.v:982-1483 | from reset of any power-on contents, cache plus backing memory behaves over every legal run as the flat memory that starts with the backing bytes |
| `CacheFlush.FlushConserves` | design/DCache.v:1292-1340 | during a flush the beats still owed drop by one on each acknowledged beat and otherwise stay: LINE_WORDS per dirty line, no more and no fewer |
| `CacheFlush.FlushBalance` | design/DCache.v:1381-1397 | over a whole flush, beats used plus beats owed is constant, no line is invalidated and the view never changes |
| `CacheFlush.FlushCompletes` | design/DCache.v:1381-1397 | flush_done implies no dirty line, backing memory equal to the view, no line invalidated, and exactly LINE_WORDS acks per initially dirty line |
| `CacheFlush.FlushProgress` | design/DCache.v:1292-1397 | each cycle of a flush lowers the work left, except a writeback cycle without an ack, which keeps it |
| `CacheFlush.FlushBounded` | design/DCache.v:1292-1397 | over every flush run, the cycles that do not wait for the bus and the work left never exceed the work at the start, which is at most LINE_WORDS + 2 per line |
| `CacheFlush.MissProgress` | design/DCache.v:1292-1379 | a pending miss is answered exactly at its last acknowledged beat, and every ack brings that closer by one |
| `CacheFlush.MissBounded` | design/DCache.v:1292-1379 | over every waiting run of a miss: it is answered in the very cycle that brings the acks to the number of beats owed at its start, neither before nor later |
| `CacheLiveness.FlushStarts` | design/DCache.v:1104-1110 | a flush asked of the idle cache starts at once, at the first line and with nothing changed |
| `CacheLiveness.FlushServed` | design/DCache.v:1104-1397 | every legal run that asks the idle cache for a flush and acknowledges Lines * (LINE_WORDS + 2) cycles passes through a state with flush_done up, no dirty line, memory as the CPU saw it when it asked, every line still in place, and LINE_WORDS beats spent per line then dirty |
| `CacheLiveness.RequestServed` | design/DCache.v:1104-1483 | over every legal run a request found by the idle cache is answered exactly when due: a store hit at once, a load hit in the next cycle, a miss in the cycle of the last of LINE_WORDS beats, twice as many when the displaced line is dirty |
| `CacheLiveness.LoadsNeverWrite` | design/DCache.v:982-1397 | over every legal run without stores, flushes included, a clean cache stays clean and memory is never written |
| `CacheLiveness.HitUnderMiss` | design/DCache.v:1018-1033 | a load that hits during a writeback or fill is captured with the word of its hitting way, selected and extended |
| `CacheLiveness.HitUnderMissAnswers` | design/DCache.v:1430-1436 | and is answered with it in the next cycle unless the miss is |
| `CacheReplacement.TouchOrders` | design/DCache.v:912-924 | if the ranks order the ways by last access, they still do after lru_touch on a newly accessed way |
| `CacheReplacement.AccessIsAnswer` | design/DCache.v:1011-1016 | the accesses that touch recency are exactly the answered requests, in the set of the request |
| `CacheReplacement.AccessHolds` | design/DCache.v:1011-1016 | the way of an access is, after the edge, a way of the request's set that holds its line |
| `CacheReplacement.FillIsMiss` | design/DCache.v:1341-1379 | a fill is recorded exactly when a miss is answered |
| `CacheReplacement.AgeStep` | design/DCache.v:1011-1016 | under LRU an edge moves the ranks by one touch of the accessed or installed way and not otherwise |
| `CacheReplacement.LruVictim` | design/DCache.v:358-367 | in every state reached from reset of any power-on contents the LRU victim is the unique least recently accessed way of its set |
| `CacheReplacement.FillsRoundRobin` | design/DCache.v:1341-1379 | under round-robin the fills of a set go round its ways in order along every run |
| `CacheReplacement.RoundRobinVictim` | design/DCache.v:1348-1350 | from reset the k-th fill of a set goes to way k mod WAYS, and once all are filled the next victim is the earliest filled way |
| `DataCacheUnit.DCache.CompareWays` | design/DCache.v:299-323 | the way loop computes hit, or-ed data and or-ed line index of the compare |
| `DataCacheUnit.DCache.Clock` | design/DCache.v:982-1397 | one edge of the unit on its register arrays, updated in place, is exactly the transition the theorems are about |
| `DataCacheUnit.DCache.ResetEdge` | design/DCache.v:982-1007 | a clock edge under reset clears exactly the registers the source clears, in place, and makes any powered-on unit valid |
| `DataCacheUnit.DCache.Cycle` | design/DCache.v:982-1397 | in a system satisfying the invariant, a legal cycle leaves the unit valid and the next system satisfying it |
| `DataCacheUnit.FlushSwallowsStore` | design/DCache.v:1104-1110 | a store hit is answered at once; if a flush is accepted in that very cycle neither data nor dirty bits change, otherwise the store is merged: the reason requests and flushes must not overlap |
| `DataCacheUnit.SwallowingReachable` | design/DCache.v:1104-1110 | for every geometry, from any reset, a miss and the fill of its line lead by a legal run to an idle state in which a store to a word of that line and a flush in the same cycle leave the store answered and every data and dirty bit unchanged |
| `F32.NormUnique` | sim/tools/iss.py:244-265 | a positive magnitude has only one reading as significand, exponent and remainder class, so every way of computing one computes the same |
| `F32Normalize.NormalizeFraction` | sim/tools/iss.py:244-265 | the estimate-and-correct loop gives the unique normalization of any positive rational after at most one correction in total |
| `F32Normalize.SqrtNormalizeFraction` | sim/tools/iss.py:268-288 | the same for the square-root exponent estimate; the procedure gives the reading exactly when the scaled magnitude is whole, as it asserts |
| `F32Normalize.DecodedIsRadicable` | sim/tools/iss.py:268-288 | that assertion never fails on a decoded float |
| `F32Normalize.ISqrtRoots` | sim/tools/iss.py:268-288 | the integer square root brackets its argument between consecutive squares |
| `F32Normalize.SqrtIsRoot` | sim/tools/iss.py:268-288 | for every decoded float, the integer square-root procedure normalizes the exact real root: same exponent, 24-bit floor and remainder class |
| `F32Rounding.Placement` | sim/tools/iss.py:244-265 | the magnitude lies between its two neighbouring grid values on the side its class names |
| `F32Rounding.NeighboursAdjacent` | sim/tools/iss.py:244-265 | no representable value lies strictly between the two neighbours |
| `F32Rounding.RoundsUniquely` | sim/tools/iss.py:193-241 | the rounding rules of section 4.3 of IEEE 754-2019, on a grid without exponent limits, leave at most one grid point for every magnitude, sign and mode, so no threshold is open |
| `F32Rounding.RoundingCorrect` | sim/tools/iss.py:193-241 | for every positive magnitude and all five modes that grid point exists, and the result is it packed: overflow exactly when it lies above the range, a flush to zero exactly when it lies below 2^-126, inexact exactly when it differs from the magnitude or one of these applies; the meaning of the packed result is stated as well |
| `F32Rounding.RoundingMonotone` | sim/tools/iss.py:193-265 | rounding is monotone in the magnitude for every sign and mode |
| `F32Rounding.DecodeRoundTrip` | sim/tools/iss.py:159-176 | decoding then rounding any normal float returns its bits with no flags |
| `FloatMeaning.RoundsToNumber` | sim/tools/iss.py:149-241 | said of bit patterns, their values and the encodings 0 to 4: every magnitude in range, with its sign, becomes in mode 2 the greatest number not above, in mode 3 the least not below, in mode 1 the one next toward zero, else a nearest one, ties going to the even pattern or in mode 4 away from zero; only inexact is raised, exactly when the values differ |
| `FloatMeaning.OverflowRule` | sim/tools/iss.py:228-236 | past the largest number: which modes and magnitudes give infinity and which the largest number, and when overflow is raised, with the threshold of the nearest modes |
| `FloatMeaning.TinyRule` | sim/tools/iss.py:237-238 | below the smallest number: when the result is that number after all, and otherwise a signed zero with underflow |
| `FloatOperations.QuotientMeans` | sim/tools/iss.py:351-368 | the quotient of two numbers is the quotient of their values so rounded, flags included |
| `FloatOperations.RootMeans` | sim/tools/iss.py:371-381 | the square root of a positive number is its real root so rounded, flags included |
| `FloatOperations.TotalMeans` | sim/tools/iss.py:384-416 | the fused total of numbers is product plus addend with the signs asked for, so rounded, flags included; an exact cancellation is negative zero in mode 2 and positive zero in every other |
| `FloatOperations.DivisionSpecials` | sim/tools/iss.py:351-368 | division with a NaN, infinity or zero: result pattern, invalid and division by zero, by operand patterns |
| `FloatOperations.RootSpecials` | sim/tools/iss.py:371-381 | the same for square root |
| `FloatOperations.TotalSpecials` | sim/tools/iss.py:384-416 | the same for fused multiply-add |
| `FpRound.RoundAndPackMatches` | design/fp_round.vh:22-112 | for all register contents, round_and_pack agrees with the reference if and only if the rounded exponent still fits the register and the rounded significand is not zero short of overflow; agreeing is equal bits, and equal flags except for an exact result below 2^-126, where it omits inexact |
| `FpRound.RoundAndPackInRange` | design/fp_round.vh:22-112 | it agrees for every significand but zero and every exponent up to 509, which covers all that the units hand over |
| `FpRound.GuardReading` | design/fp_round.vh:22-112 | guard, round and sticky bits cut from a truncated value name the class of the discarded part |
| `RestoringDivision.DivStepAdvances` | design/FDivider.v:144-168 | one restoring step turns the registers for k quotient bits into those for k+1: quotient of the top bits, remainder below the divisor, pending bits shifted |
| `IntegerDivider.SignedDivisionLaw` | sim/tools/iss.py:1220-1243 | the specified quotient and remainder satisfy a = q*b + r with |r| < |b| and the sign of the dividend, outside zero divisor and overflow |
| `IntegerDivider.DivisionMeans` | sim/tools/iss.py:1220-1243 | all four instructions in numbers, signed and unsigned, zero divisor and overflow included |
| `IntegerDivider.SignFixup` | design/Divider.v:103-108 | negating the unsigned results by the recorded signs gives the specified signed results |
| `IntegerDivider.Divider.Clock` | design/Divider.v:41-112 | one edge: restart only when idle and not done, otherwise one step; quotient and remainder are the specified ones when done rises |
| `IntegerDivider.Divider.Advance` | design/Divider.v:84-110 | one busy edge keeps the quotient and remainder equation; the bit dropped by the shift is zero |
| `IntegerDivider.Divide` | design/Divider.v:61-110 | for all operands, signedness and widths the unit ends with the reference results after exactly XLEN busy steps, or at once for zero divisor and overflow, and does not restart on the done cycle |
| `FloatDivider.QuotientWindow` | design/FDivider.v:173-189 | the final quotient lies in [2^26, 2^28) |
| `FloatDivider.DivReading` | design/FDivider.v:181-189 | both leading-bit cases hand over exactly the exponent, 24-bit floor and remainder class of the exact quotient |
| `FloatDivider.FDivider.Clock` | design/FDivider.v:73-195 | one edge of the unit keeps the division invariant; when done rises the answer agrees with the reference |
| `FloatDivider.DivideFloat` | design/FDivider.v:73-195 | for all operands and modes: bits equal the reference f_div; flags equal it exactly when the quotient is not exact and below 2^-126; after 51 steps or at once for special operands |
| `FloatDivider.TinyExactExample` | sim/tools/iss.py:216-241 | 2^-100 / 2^100 is such an exact tiny quotient, and the reference raises inexact there |
| `FloatSqrt.RootDigit` | design/FSqrt.v:130-138 | bringing down two bits and one trial subtraction extends the integer root and its remainder, and the remainder never exceeds twice the root |
| `FloatSqrt.SqrtStepAdvances` | design/FSqrt.v:120-142 | after k steps the registers are the root and remainder of the top 2k radicand bits; no dropped bit is ever one |
| `FloatSqrt.SqrtReading` | design/FSqrt.v:143-152 | the final slices equal the reference normalization for both exponent parities, and are never a tie |
| `FloatSqrt.FSqrt.Clock` | design/FSqrt.v:73-156 | one edge of the unit keeps the recurrence invariant; when done rises bits and flags are the reference's |
| `FloatSqrt.SquareRoot` | design/FSqrt.v:73-156 | for all operands and modes bits and flags equal the reference f_sqrt, after 26 steps or at once for special operands |
| `FusedMultiplyAdd.WideShiftRightSticky` | design/FMADDUnit.v:73-95 | the bit-collecting loop shifts right and jams every lost one into the lowest bit |
| `FusedMultiplyAdd.JamStandsFor` | design/FMADDUnit.v:73-95 | a jammed value stands for the exact shifted real: equal when even or nothing was lost, else strictly within one unit of it |
| `FusedMultiplyAdd.FrameSumJams` | design/FMADDUnit.v:190-195 | the 113-bit sum or difference is the exact one jammed, and the subtraction never underflows |
| `FusedMultiplyAdd.FrameReading` | design/FMADDUnit.v:197-214 | significand, guard, round and sticky cut from the renormalized jammed sum are those of the exact value |
| `FusedMultiplyAdd.Renormalize` | design/FMADDUnit.v:200-211 | the while loop brings the leading one to the frame's top and counts the shift |
| `FusedMultiplyAdd.FusedMultiplyAddUnit` | design/FMADDUnit.v:97-219 | for all operands, sign options and modes: bits equal the reference f_madd, and flags equal it exactly when the total is not exact and below 2^-126 |
| `FusedMultiplyAdd.TinyExactExample` | sim/tools/iss.py:384-416 | 2^-100 * 2^-100 + 0 is such a total |
| `Privilege.StepIsolated` | sim/tools/iss.py:1722-1786 | from U or S one event either stays there with the machine state unchanged or is a trap entering M |
| `Privilege.RunIsolated` | sim/tools/iss.py:889-1010 | over every run from U or S until a state in M: privilege stays in {U,S} and mtvec, mepc, mcause, mtval, mscratch, medeleg, mideleg, the machine half of mstatus and the machine bits of mie are unchanged |
| `Privilege.MachineEntry` | sim/tools/iss.py:945-984 | M is first entered at the mtvec set before, with delegation, mscratch and machine enables unchanged, MPIE holding the old MIE, and mepc and MPP recording what was interrupted |
| `Privilege.NestedReturn` | sim/tools/iss.py:945-1010 | after a delegated trap, any handler run with any number of M traps each closed by mret, whose CSR writes leave the saved state, MPP and the privilege as they were, ends in an sret that restores pc, privilege and SIE |
| `PrivilegeRules.TrapLands` | sim/tools/iss.py:945-984 | a trap with addresses and bits written out: delegated below M by the cause's bit of medeleg or mideleg; what is saved where, the new privilege and pc, every other register and bit unchanged |
| `PrivilegeRules.ExecFollows` | sim/tools/iss.py:1722-1786 | which instruction traps at which privilege and with which cause: a CSR address above the privilege with 2, ecall with 8, 9 or 11, ebreak with 3; otherwise what it does |
| `PrivilegeRules.WriteReaches` | sim/tools/iss.py:889-943 | a write changes the register behind its address in the bits that exist, keeps the rest of it only through sstatus and sie, and changes nothing else |
| `PrivilegeRules.StatusReaches` | sim/tools/iss.py:889-943 | fflags, frm and fcsr reach the floating-point status by their fields, and an address behind which there is nothing is not written |
| `PrivilegeRules.ReadShows` | sim/tools/iss.py:853-887 | a read shows the register behind its address, through sstatus, sie and sip the supervisor's bits alone |
| `PrivilegeRules.UserIsolated` | sim/tools/iss.py:889-1010 | over every run, as long as the hart stays in U, sepc, scause, stval, stvec, sscratch, satp, mstatus, mie, mip and every other register above the user level are unchanged |
| `Privilege.Iss.WriteCsr` | sim/tools/iss.py:889-943 | csr_write on the model's dictionary, view by view and mask by mask |
| `Privilege.Iss.TakeTrap` | sim/tools/iss.py:945-984 | trap: delegation, saved state and new pc, whole new state stated |
| `Privilege.Iss.Execute` | sim/tools/iss.py:1722-1786 | the SYSTEM arm of step and the scheduled interrupt, with the lookup error of ecall at privilege 2 as its failure |
| `CsrFile.CsrUnit.Clock` | design/CSR.v:647-909 | one clock edge of the file: every register by its own chain from the values before the edge |
| `CsrFile.SameCycleWrite` | design/CSR.v:722-909 | a write in the cycle of a trap, mret or sret acts as if it followed it when its register is not one they load, and is lost when it is, floating-point flags of the same cycle included |
| `CsrFile.TrapOutranks` | design/CSR.v:647-909 | a trap outranks both returns and mret outranks sret |
| `CsrFile.LinesNotStored` | design/CSR.v:647-909 | live interrupt lines are seen by reads and stored nowhere, not even by a read-modify-write of mip |
| `CsrFile.PendingLines` | design/CSR.v:489-525 | mip shows the written bits with the software, timer and external lines at bits 3, 7 and 11 |
| `CsrFile.ReadAgrees` | design/CSR.v:489-525 | every modelled address reads the same in the file and in the reference model |
| `CsrFile.TargetAgrees` | design/CSR.v:486-487 | both choose the same trap target for exceptions and interrupts |
| `CsrFile.CycleAgrees` | design/CSR.v:569-909 | one cycle of any legal mix of trap, mret, sret, csr access and flag accrual keeps all registers, privilege, read value, trap target and redirect address equal to those of the reference model's own operations taken in one fixed order: trap or return, then the access unless it targets a register they load, then flags on what fflags was |
| `CsrFile.RunAgrees` | design/CSR.v:569-909 | over every sequence of cycles the file ends in agreement with the reference model's operations run in that order on its own state, and shows the same reads, targets and redirects in every cycle |
| `CsrFile.ResetAgrees` | design/CSR.v:648-673 | reset puts file and model in agreement |
| `CsrFile.ReservedOperation` | design/CSR.v:569-571 | file and reference model compute the same written value for all operands exactly when the operation is not the reserved 00, where one writes and the other clears |
| `PageWalk.ReadPte` | sim/tools/iss.py:1094-1102 | the byte-accumulating loop reads a little-endian entry at the address cut to 32 bits, through wrap-around at the memory size and device space |
| `PageWalk.Sv32IsWalk` | sim/tools/iss.py:1050-1092 | _translate_sv32 is the two-level instance of one generic walk, physical address and fault included, for every address |
| `PageWalk.Sv39IsWalk` | sim/tools/iss.py:1104-1167 | _translate_sv39 is its three-level instance |
| `PageRules.EntryBytes` | sim/tools/iss.py:1012-1015 | an entry is four or eight bytes of memory, least significant first, wrapped at the memory size and zero in device space |
| `PageRules.Sv32Rule` | sim/tools/iss.py:1017-1092 | from the entry values: an address is given exactly through an aligned valid leaf whose bit for the access is set and whose U bit is set exactly in U mode, and it is the leaf's page plus the offset; everything else is fault 13, 15 or 12 with the address |
| `PageRules.Sv39Rule` | sim/tools/iss.py:1104-1167 | the same for the three levels of Sv39 |
| `PageWalk.WalkExpanded` | sim/tools/iss.py:1050-1167 | replacing a leaf at any level by a table of consecutive smaller leaves changes no walk that meets the slot only at that level |
| `SuperpageExpansion.ExpansionKeepsWalks` | sim/tools/iss.py:1050-1167 | the same in byte memory: the leaf's bytes overwritten by a pointer and a fresh page filled with the pieces leave every walk unchanged |
| `SuperpageExpansion.Sv32Expansion` | sim/tools/iss.py:1050-1092 | expanding an aligned Sv32 megapage leaves address, fault cause and tval unchanged for every virtual address, access kind and privilege |
| `SuperpageExpansion.SampleExpands` | sim/tools/iss.py:1050-1092 | a four-page memory with one megapage leaf meets all hypotheses of the expansion |
| `SuperpageExpansion.SharedSlotBreaks` | sim/tools/iss.py:1050-1092 | a root table that also serves as its own second level meets the leaf at level 0; there the same rewrite turns a mapped address into a load page fault, so the condition on the slot is needed |
| `SuperpageExpansion.Sv39Expansion` | sim/tools/iss.py:1104-1167 | the same for an aligned Sv39 megapage or gigapage |
| `DeviceTree.FdtBuilder.StringOff` | sim/tools/gen_dtb.py:48-52 | a new property name is appended with its NUL and its offset recorded; a known one is reused |
| `DeviceTree.FdtBuilder.BeginNode` | sim/tools/gen_dtb.py:54-56 | opening a node appends its token, name, NUL and padding |
| `DeviceTree.FdtBuilder.EndNode` | sim/tools/gen_dtb.py:58-59 | closing a node appends its token |
| `DeviceTree.FdtBuilder.PropRaw` | sim/tools/gen_dtb.py:61-65 | a property call appends exactly its bytes, or fails to pack leaving its token behind |
| `DeviceTree.FdtBuilder.BuildBlob` | sim/tools/gen_dtb.py:85-111 | the built blob, or the packing error of a size that does not fit 32 bits; the end token stays in the builder |
| `DeviceTree.InternKeeps` | sim/tools/gen_dtb.py:48-52 | interning keeps every earlier name at its offset as the string table grows |
| `DeviceTree.DecodeBody` | sim/tools/gen_dtb.py:54-65 | reading a structure block recovers exactly the calls that wrote it, against any extension of the string table |
| `DeviceTree.RoundTrip` | sim/tools/gen_dtb.py:42-111 | whenever a blob can be built from calls with NUL-free names, an independent reader of the format, with its own header check and token values, recovers exactly the node, property and value sequence |
| `DeviceTree.BuiltConforms` | sim/tools/gen_dtb.py:85-111 | the header has the magic bytes in order, the blob's size, version 17, compatible version 16, and an aligned terminated reservation block ahead of the structure block |
| `DeviceTree.ParseAndValidate` | sim/tools/gen_dtb.py:206-263 | the checker's cursor loop computes the recursive validation function |
| `DeviceTree.AcceptsExactly` | sim/tools/gen_dtb.py:206-263 | the checker accepts a built blob if and only if the calls are well nested, at least two deep and set a property, and then reports their depth, property count and size |
| `DeviceTree.AcceptsAny` | sim/tools/gen_dtb.py:206-263 | for any bytes whatever, the checker accepts exactly a blob with the header it asks for whose structure block spells, to its end token, tokens that are well nested, at least two deep and set a property, every name inside the strings |
| `FreeList.QueryAnswers` | design/FreeList.v:107-111 | grants and granted registers in terms of the queue's contents, slot 1 accounting for slot 0's grant |
| `FreeList.ClockedIsFifo` | design/FreeList.v:121-143 | an edge drops the committed registers from the front and appends the reclaimed ones |
| `FreeList.FifoExactly` | design/FreeList.v:121-143 | for every cycle with granted commits, the edge is a FIFO step if and only if slot 1 commits only with slot 0 and the reclaims fit |
| `FreeList.LinkedExactly` | design/FreeList.v:134-142 | with room for the reclaims the ring stays linked exactly when slot 1 never commits without slot 0, since head_r moves only on commit_en0 |
| `FreeList.LoneCommitExample` | design/FreeList.v:134-142 | a granted lone slot-1 commit hands out register 2 and keeps it in the ring |
| `FreeList.OverfullExample` | design/FreeList.v:121-143 | reclaiming one register into a full ring of two overwrites a queued one |
| `FreeList.FreeListUnit.Outputs` | design/FreeList.v:107-111 | the combinational outputs are the query's answers |
| `FreeList.FreeListUnit.Clock` | design/FreeList.v:125-144 | one edge of the unit on its array is the ring transition for every granted cycle, and the FIFO step when slot 1 commits only with slot 0 and the reclaims fit |
| `FreeList.RoomIsRetaining` | design/FreeList.v:91-94 | while every register is queued or held, the reclaims fit exactly when the callers keep as many registers held as there are architectural ones |
| `FreeList.StepConserves` | design/FreeList.v:121-143 | a cycle in which the callers keep their contract keeps queue and held registers a partition without duplicates; what it hands out was free and distinct |
| `FreeList.RunConserves` | design/FreeList.v:121-143 | over every legal run no register is lost, invented or duplicated, and registers leave in exactly the order they entered, however many queries stalled |
| `FreeList.ResetConserves` | design/FreeList.v:126-132 | after reset the architectural registers are held and all others queued in order |
| `FreeList.Counted` | design/FreeList.v:91-94 | free count plus held registers is always the size of the register file |
| `ConstantBuilder.ExecMeans` | sim/tools/iss.py:1207-1710 | what addi, lui, slli, srli and or leave in a destination other than x0 at XLEN=64, and that no other register changes |
| `ConstantBuilder.BuildConst` | sim/tools/random_gen.py:199-240 | the 32-bit builder's instruction list, both forms |
| `ConstantBuilder.LuiSignExtends` | sim/tools/random_gen.py:232-240 | the lui form leaves the sign extension of its constant exactly outside 0x7FFFF800..0x7FFFFFFF |
| `ConstantBuilder.LuiExample` | sim/tools/random_gen.py:232-240 | for 0x7FFFFFFF it leaves 0xFFFFFFFF7FFFFFFF |
| `ConstantBuilder.ChunkExact` | sim/tools/random_gen.py:220-231 | the form without lui leaves exactly its constant |
| `ConstantBuilder.Const64Correct` | sim/tools/random_gen.py:148-169 | running the 64-bit builder leaves rd equal to any 64-bit constant with either 32-bit builder and changes no register but rd and the scratch |
| `JumpEncoding.BranchRoundTrip` | sim/tools/asm.py:307-316 | the assembler accepts exactly the even offsets in range; the word has opcode, condition, both registers and the offset's bits where the instruction set puts them, and the reference model decodes that offset |
| `JumpEncoding.JalRoundTrip` | sim/tools/asm.py:319-327 | the same for jal and its link register |
| `GeneratedPrograms.CollectLabels` | sim/tools/asm.py:490-503 | pass one maps each label to the address of its last definition and numbers the statements |
| `GeneratedPrograms.Layout` | sim/tools/random_gen.py:737-765 | for all random choices the second pass emits one statement per item and every drawn label's last definition stands where it is meant |
| `GeneratedPrograms.BodyLinks` | sim/tools/random_gen.py:737-765 | every label resolves to a strictly later instruction, and the word assembled for an item decodes to its condition, registers and distance, or the jump is out of reach |
| `GeneratedPrograms.GeneratedIsGood` | sim/tools/random_gen.py:567-790 | every assembled program, its branch and jal words encoded and decoded again, starts with the base register, jumps only forward, writes no x31 and ends in the halt loop |
| `GeneratedPrograms.ProgramExists` | sim/tools/random_gen.py:567-790 | any items and targets drawn from their ranges have a layout, and it assembles whenever the program is within a branch's reach and the base fits its immediate |
| `GeneratedPrograms.ChoicesCovered` | sim/tools/random_gen.py:567-765 | the choices the theorems range over include every opcode, condition, register, width, offset and target that is drawn |
| `GeneratedPrograms.DrawnIsSafe` | sim/tools/random_gen.py:644-657 | a drawn access is aligned and in memory exactly when the base is a multiple of its width and the first access of its width fits above the base, and its offset fits the immediate |
| `GeneratedPrograms.RunInside` | sim/tools/iss.py:1908-1967 | in every run, whatever values are computed and branches taken, pc strictly increases inside the program and x31 keeps the base |
| `GeneratedPrograms.RunAccesses` | sim/tools/iss.py:1908-1967 | a load or store that a run executes is aligned and inside memory exactly when the base is a multiple of its width and its first access fits; with the base aligned to the widest access they all are |
| `GeneratedPrograms.RunNeverTraps` | sim/tools/iss.py:1207-1906 | every straight-line instruction a run executes is one that step takes on to the next instruction in machine mode; no trap or computed jump is ever taken |
| `GeneratedPrograms.RunHalts` | sim/tools/iss.py:1908-1967 | every run takes fewer steps than the program has instructions and can only stop at the halt loop |
| `GeneratedPrograms.BudgetMissesOne` | sim/tools/random_gen.py:395-439 | the size check counts one trailing instruction and the text has two, so a program fits exactly when the counted budget is strictly below the memory |
| `GeneratedPrograms.BudgetExample` | sim/tools/random_gen.py:395-439 | 18 items and 32 words pass the check at 32 bits, and every such program has 33 instructions |
| `GeneratedPrograms.BudgetWitness` | sim/tools/random_gen.py:395-439 | a concrete program of 18 additions that the check lets into 32 words and that has more |

## Left out

- Data cache with more than one miss entry, victim buffer, prefetch, second-level probes and 64-bit accesses: the model is the default blocking configuration, where no entry is retired early; the other configurations need a different argument about queued victims.
- Cache geometry: sets, ways, line length and tag count are any positive numbers; the source takes powers of two, which lets it slice bits where the model divides, and lines of at least two words, since with one its word-offset slice is empty.
- CacheFlush.FlushBounded: bounds the cycles of a flush apart from those that wait for the bus, because the bus may wait forever.
- DataCacheUnit.DCache.Cycle: assumes the caller's contract (aligned requests held until answered, no request beside a flush), which the unit does not check.
- FreeList.RunConserves: assumes the contract the source puts on its callers: commits follow grants, slot 1 commits only with slot 0, only handed-out registers are freed, and at least the architectural number of registers stays held.
- CsrFile.RunAgrees: the reference model runs one operation at a time; what it would do with several in one cycle is the order `IssCycle` lays down, not something it defines. Performance counters, vector CSRs and live interrupt lines are not part of the comparison; XLEN is 32, since the reference model keeps CSRs in 32 bits.
- Privilege.RunIsolated: instructions outside SYSTEM appear only through what they do to CSRs: raise a trap, accrue floating-point flags, or neither.
- Privilege.NestedReturn: a trap taken inside M before its mret is not covered, since it overwrites mepc and MPP unless the handler saves them.
- SuperpageExpansion.Sv32Expansion: asks that no walk reads the page chosen for the new table and that the slot is met only at the leaf's level; `SharedSlotBreaks` shows the second to be needed.
- DeviceTree.RoundTrip: names are given as their ASCII bytes; the encoding error for other characters is not modelled, and the typed property helpers are taken at the bytes they pass on.
- GeneratedPrograms.RunInside: instructions are kept at what safety depends on (the opcode that step dispatches on, the register written, the access made, the jump target); computed values and branch outcomes are arbitrary. That the opcodes drawn are those of `Emitted` is read off the mnemonic tables, and a function code unknown within an opcode, an error of the simulator, is not modelled.
- Interrupt, MMU and out-of-order modes of the generator, its instruction mix by weight, and the other instruction encoders of the assembler.
- `f_add`, `f_mul`, conversions, comparisons and `FALU.v`: they round through the same functions and add no new argument.
- `CompressedExpander.v`, `ALU.v`, `Control.v`, cryptographic tables and branch predictors: finite case tables, or structures any content of which is legal.
- Pipeline, out-of-order core, reorder buffer, TLBs, second-level cache and bus adapters.
- SBI firmware devices, simulation harness, benchmark and build scripts, profiler and debugger.
