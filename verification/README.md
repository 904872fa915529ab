# Verified model of the sim2023 RISC-V simulator

The simulator runs RV64I user programs. It is fast because it takes short cuts: host page
pointers are cached in three direct-mapped TLBs, decoded basic blocks are cached and threaded
from handler to handler, and the page tables that the guest runs on are written into guest
memory by the loader itself. This project models those parts and proves that the short cuts
change nothing.

## Main results

* **Page tables.** Whatever sequence of `map` calls is made on a fresh table region, in Sv39,
  Sv48 or Sv57, translation through the tables is a finite map keyed by the page number modulo
  2^(9 * levels) (`MapperTheorems.TranslateAfterMaps`). Each call refines an abstract mapper that
  knows no memory at all (`MapperTheorems.MapRefines`): it says exactly which status is returned,
  and in particular that the table region counts as full exactly when more tables are missing on
  the path than are left. Unsuccessful calls change no translation.
* **Isolation.** User stores cannot reach the table region if and only if no user-writable mapping
  keeps a page number of it (`Isolation.IsolationExactly`). The check that `map` makes is not that
  condition: it compares the page number before it is cut to 44 bits. On a fresh Sv39 mapper for
  pages 0 to 15 a request for page 2^44 succeeds, and a user store to address 0 then goes to the
  root table (`Isolation.TruncationDefeatsTheCheck`). A call keeps stores out exactly when it does
  not succeed with a request whose flags are user-writable and whose page number, modulo 2^44, is
  one of the region (`Isolation.MapKeepsIsolationExactly`); page numbers below 2^44 are always safe.
  In isolated memory no run changes a byte of the region, spare pages included, so the tree is there
  afterwards and the mapper can go on (`RunTheorems.RunKeepsTree`).
* **Caches.** A coherent TLB answers as an uncached translation and a flat memory access do, and
  loads, stores, new RAM pages and further `map` calls keep it coherent (`Access`,
  `RunTheorems.MapKeepsCaches`).
* **Whole runs.** After any number of iterations of the main loop the simulator has the pc,
  registers, instruction count, memory and exit status of a machine that translates, fetches,
  decodes and executes one instruction at a time (`Refinement.RunRefines`). This holds if and only
  if no block that the run begins has a word whose fetch fails the assertion on A and D
  (`Refinement.RefinedExactly`): the simulator fetches the whole block before it executes any of it,
  so such a word ends the process even when the program would have exited before it
  (`LossExample.BlockFillLosesTheProcess`). Tables written by the mapper never have one
  (`RunTheorems.TreeSurvives`).
* **Loader.** Segments that were loaded are in place when read through the page tables; the
  loader's own copy of the mapping never disagrees with the tables; mapping the stack on a fresh
  loader always succeeds and uses 9 of the 15 spare tables.
* **Translation of any memory.** Whatever the tables hold, translation is the outcome of the path of
  the address as the architecture describes it, entry by entry (`MmuSpec.TranslateExactly`).
* **Instructions.** What every implemented instruction does to registers, memory and pc is stated of
  the reference machine in the terms of the ISA and not of the handlers (`Isa`): where jumps and
  branches go and what they link, which bytes loads and stores move and how they are extended, and the
  results of arithmetic, bitwise operations and shifts, as numbers or bit by bit.
* **Decoder.** For every 32-bit word: which instruction it is, with which registers and immediate, and
  whether it has a handler (`DecoderWords`). Encoding by a table of formats of its own and decoding
  are a round trip.
* **Registers.** The packing of PTEs and of control and status registers is a round trip, up to what
  translation reads from satp and mstatus.
* **All together.** `Application.RunProgram` follows the main function of the application: its
  contract combines the image, the isolation of the tables and the refinement.

## How the model is built

Objects that the source updates in place are classes (`PhysMem.PhysMemory`,
`Mapper.SimpleMemoryMapper`, `Tlb.TlbCache`, `Simulator.BbCache`, `Simulator.Simulator`,
`Loader.ElfLoader`, `Csr.CsrValue`), with the source's loops. Each of their methods is proved
equal to a function on values, and the theorems are about those functions. Pure code is functions.

Machine integers are natural numbers with every truncation and wrap-around written out; a bit
pattern is a number with `Bits.Bit` for its bits. Guest memory is a map from page number to 4096
bytes (`PhysMem.Mem`); under it lies the model of the host, where a page is named by the number of
its host mapping and its index there. The status `ABORT` stands for a process that is lost: a
failed assertion, a call through a null handler, a shift by the operand width or more. Signed
additions that overflow wrap around.

Whole-run refinement assumes what the simulator itself relies on, as `Track.SafeRun`, a statement
about the reference machine alone: a store does not hit a byte that a block begun so far in the run
has taken in, and no access and no block touches the page at 2^56, which is the empty tag of the TLBs
and of the block cache. The control registers and the mappings do not change during a run. Code that
is not reached by the run need not be implemented: an unimplemented instruction ends both machines
with `ABORT`.

Modules: `Bits`, `Common`, `Pte`, `PhysMem` (data); `Mmu`, `MmuTheory`, `MmuSpec` (the walker); `Mapper`,
`MapperTheory`, `MapperTheorems`, `Isolation` (the table builder); `Instr`, `Decoder`,
`DecoderTheory`, `DecoderWords`, `Exec` (instructions); `Tlb`, `Access`, `Block` (caches); `Machine`,
`Isa`, `Track`,
`Refinement`, `RunTheorems`, `LossExample`, `Simulator` (runs); `LoaderTheory`, `Loader`; `Csr`;
`Application`.

## Where code and documentation differ

The code is followed throughout.

* Shift amounts in registers are cut with `maskBits<uint8_t>`, which is meant to keep 6 or 5 bits
  but keeps all 8, because the operand is promoted before it is shifted. `Bits.MaskBits8DoesNotMask`
  gives the exact condition under which the intended value comes out: the byte is small enough already.
  So a register shift has the amount that the ISA prescribes if and only if the low byte of rs2 is
  below the width (`Isa.AmountExactly`), and is undefined otherwise.
* AUIPC zero-extends its immediate, which is right if and only if bit 31 of it is clear
  (`Isa.AuipcExactly`).
* JALR is decoded without looking at funct3, SLLI without looking at bits 31:26, SLLIW without
  looking at bits 31:25 and ECALL without looking at bits 11:7 (`DecoderWords.Selects`).
* Translation omits the canonical-address check of Sv39, Sv48 and Sv57, the update of A and D (a leaf
  without them stops the process) and the check that A, D and U are clear in non-leaf entries.
* `invalidate` of the TLBs and of the block cache is never called by the simulator.

## Model

| member | source | states |
|---|---|---|
| `MapperTheorems.MapRefines` | memory/src/memory.cpp:165-223 | one `map` call on any well-formed tree returns the status of the abstract mapper, leaves a well-formed tree holding the abstract tables and mappings, and touches no page outside the region; the region is full exactly when more tables are missing than left |
| `MapperTheorems.MapAllRefines` | memory/src/memory.cpp:165-223 | the same for any sequence of calls on a fresh region: all statuses and the final tree |
| `MapperTheorems.TranslateIsMapped` | memory/src/memory.cpp:94-163 | on a well-formed tree, translation of every address for every privilege and access type is lookup in the abstract map followed by the flag check; everything else is a page fault |
| `MapperTheorems.TranslateAfterMaps` | memory/src/memory.cpp:94-223 | after any sequence of `map` calls on zeroed table pages, translation is the abstract map those calls make |
| `MapperTheorems.MapChangesOnePage` | memory/src/memory.cpp:187-217 | an unsuccessful call changes the translation of no address; a successful one only that of addresses with the key it maps |
| `MapperTheorems.MapKeepsTranslations` | memory/src/memory.cpp:187-217 | a translation that succeeded before a call gives the same result after it |
| `MapperTheorems.TableAccounting` | memory/src/memory.cpp:189-197 | tables handed out after the root are as many as valid entries of inner tables, at all times |
| `Isolation.TreeClosed` | memory/src/memory.cpp:111-140 | a walk that starts at the root stays in tables of the tree |
| `Isolation.IsolationExactly` | memory/src/memory.cpp:166-170 | user stores stay out of the whole table region if and only if no user-writable entry keeps a page of it |
| `Isolation.TreeIsolated` | memory/src/memory.cpp:166-170 | in that case every page of the region, in use or spare, is isolated, as the cache and run theorems require |
| `Isolation.MapKeepsIsolationExactly` | memory/src/memory.cpp:166-199 | a call keeps user stores out of the region if and only if it does not succeed with user-writable flags and a page number that, modulo 2^44, is one of the region |
| `Isolation.SmallPagesKeepIsolation` | memory/src/memory.cpp:166-170 | no successful request for a page below 2^44 does that |
| `Isolation.TruncationDefeatsTheCheck` | memory/src/memory.cpp:166-199 | on a fresh Sv39 mapper for pages 0 to 15 the request for page 2^44 with flags R, W and U succeeds, and a user store to address 0 then goes to physical address 0, the root table |
| `MapperTheory.FreshTree` | memory/include/sim/memory/simple_mapper.hpp:49-61 | a zeroed region is the tree with only its root |
| `MapperTheory.MapSlot` | memory/src/memory.cpp:172-179 | the shifted, wrapped page number of a request selects at each level the slot of its key, for page numbers of any size |
| `MapperTheory.AddTable` | memory/src/memory.cpp:189-206 | linking the next free table keeps the tree: tables stay distinct, the new one is empty and hangs one level below |
| `MapperTheory.AddLeaf` | memory/src/memory.cpp:197-211 | writing a leaf keeps the tree and adds exactly one key |
| `Mapper.SimpleMemoryMapper.constructor` | memory/include/sim/memory/simple_mapper.hpp:49-61 | reserves the region as zero pages and keeps all other contents |
| `Mapper.SimpleMemoryMapper.MapPage` | memory/src/memory.cpp:165-223 | memory, allocator cursor and status are those of the function Map |
| `Mapper.SimpleMemoryMapper.MapLoop` | memory/src/memory.cpp:176-220 | the loop is the recursive walk of the specification |
| `Mapper.FullFlagsBits` | memory/include/sim/memory/simple_mapper.hpp:19-28 | V, A and D are always set and the other flags are the caller's |
| `Mmu.TranslateVa` | memory/src/memory.cpp:94-163 | the imperative walk computes Translate and changes nothing |
| `MmuTheory.TranslateOk` | memory/src/memory.cpp:77-163 | for any memory, a successful result is the page number of an aligned, permitted leaf plus the superpage index, with the page offset of the address |
| `MmuTheory.TranslatePermissions` | memory/src/memory.cpp:49-74 | a successful translation went through a valid leaf with A and D: for a user a user page, for others a user page with SUM only and never to execute; stores need R and W, and MXR opens executable pages to loads |
| `MmuTheory.UserIgnoresSum` | memory/src/memory.cpp:49-74 | SUM changes no user translation |
| `MmuTheory.MxrIsForLoads` | memory/src/memory.cpp:49-74 | MXR changes no translation of a store or fetch |
| `MmuSpec.TranslateExactly` | memory/src/memory.cpp:94-163 | for any memory, privilege level and access type, paged translation is what the path of the address comes to: entries by number and bit, at most 3, 4 or 5 of them, a fault where a table is absent or an entry unfit, the process lost where A or D is missing, and otherwise the page of an aligned, permitted leaf plus the low bits of the address |
| `MmuSpec.PathDecides` | memory/src/memory.cpp:94-163 | a path with its outcome decides the translation |
| `MmuSpec.Untranslated` | memory/src/memory.cpp:100-104 | without paging every address is its own translation, for every privilege level and access type |
| `MmuTheory.TranslateLowBits` | memory/src/memory.cpp:38-46 | under paging only the low 12 + 9 * levels bits of the address matter |
| `MmuTheory.TranslateUniform` | memory/src/memory.cpp:94-163 | in every mode all addresses of a 4 KiB page have the same status and the same physical page |
| `MmuTheory.LeafAddress` | memory/src/memory.cpp:77-90 | the computed address is the upper page number fields joined with the low address bits |
| `MmuTheory.TranslateMonotone` | memory/src/memory.cpp:111-140 | additional physical pages never disturb a successful translation |
| `MmuTheory.TranslateStable` | memory/src/memory.cpp:94-163 | translation depends on the pages of a closed set of tables only |
| `MmuTheory.StoreKeepsTranslation` | memory/src/memory.cpp:94-163 | with isolated tables a user store changes the translation of no address and keeps isolation |
| `Pte.CreatePteFields` | memory/include/sim/memory/pte.hpp:52-57 | an entry gives back the page number modulo 2^44 and the flags, and has no reserved bit, so the assertion holds |
| `PhysMem.LERoundTrip` | memory/include/sim/memory/phys_memory.hpp:150-194 | a value written as little-endian bytes reads back cut to its width |
| `PhysMem.LEInverse` | memory/include/sim/memory/phys_memory.hpp:150-194 | bytes that are read as a number are the little-endian bytes of that number |
| `PhysMem.WriteBytes` | memory/include/sim/memory/phys_memory.hpp:178-194 | a write changes exactly the bytes it covers, to the little-endian bytes of the value |
| `PhysMem.ReadDepends` | memory/include/sim/memory/phys_memory.hpp:151-167 | a read of any width is decided by the bytes it covers |
| `PhysMem.NarrowReadBack` | memory/include/sim/memory/phys_memory.hpp:151-194 | a narrower read inside a written word gives the matching slice of the value |
| `PhysMem.ReadExactly` | memory/include/sim/memory/phys_memory.hpp:151-167 | a read over a page end is an alignment error, one of an absent page a fault, any other the number that the bytes spell, the lowest first |
| `PhysMem.WriteExactly` | memory/include/sim/memory/phys_memory.hpp:178-194 | the same for a write, which changes the bytes it covers to the digits of the value and no other; when it fails it changes nothing |
| `PhysMem.HostWriteRefines` | memory/include/sim/memory/phys_memory.hpp:178-194 | a store through a host page is the flat write to its guest page and to no other |
| `PhysMem.HostReadRefines` | memory/include/sim/memory/phys_memory.hpp:151-167 | a load through a host page is the flat read of its guest page |
| `PhysMem.PhysMemory.AllocPage` | memory/include/sim/memory/phys_memory.hpp:72-84 | across every doubling the page handed out is zero, in bounds and in use by no guest page |
| `PhysMem.PhysMemory.AddRamPage` | memory/include/sim/memory/phys_memory.hpp:96-101 | a new page appears as zeros; a page already present changes nothing; host pages handed out stay valid |
| `PhysMem.PhysMemory.ReadInt` | memory/include/sim/memory/phys_memory.hpp:151-167 | the flat read, with its two error statuses, and the host page on success only |
| `PhysMem.PhysMemory.WriteInt` | memory/include/sim/memory/phys_memory.hpp:178-194 | the flat write, with its two error statuses, and the host page on success only |
| `Tlb.TlbCache.Put` | cache/include/sim/tlb.hpp:45-51 | only the slot of the address changes |
| `Tlb.TlbCache.Invalidate` | cache/include/sim/tlb.hpp:32-36 | every tag is poisoned, host pointers stay |
| `Access.BareLoad` | simulator/include/sim/simulator.hpp:104-132 | without paging an aligned load is the number that the bytes at the address spell, or a fault where there are none |
| `Access.BareStore` | simulator/include/sim/simulator.hpp:160-187 | without paging an aligned store changes the bytes at the address and no other, or nothing where there are none |
| `Access.LoadExactly` | simulator/include/sim/simulator.hpp:104-132 | a load is misaligned, or not translated, or absent, or the number that the bytes at the translated address spell, in this order |
| `Access.StoreExactly` | simulator/include/sim/simulator.hpp:160-187 | the same for a store, which changes nothing when it fails |
| `Access.HitIsTranslation` | cache/include/sim/tlb.hpp:38-43 | a hit in a coherent cache names the host page that an uncached user translation reaches |
| `Access.LoadRefines` | simulator/include/sim/simulator.hpp:96-133 | a cached load has the status and value of the uncached one and leaves the cache coherent |
| `Access.StoreRefines` | simulator/include/sim/simulator.hpp:157-188 | a cached store has the status and memory of the uncached one and leaves the write cache coherent |
| `Access.StoreKeepsCaches` | simulator/include/sim/simulator.hpp:157-188 | with isolated tables a store keeps every cache coherent and every translation as it was |
| `Access.AddPageKeepsCaches` | memory/include/sim/memory/phys_memory.hpp:138-140 | new RAM pages keep every cache coherent |
| `RunTheorems.MapKeepsCaches` | memory/src/memory.cpp:165-223 | `map` calls, successful or not, keep every cache coherent |
| `Block.FillRefines` | bb/include/sim/bb.hpp:49-81 | an update ends the process exactly when some word up to the end of the block does so when it is fetched; otherwise each entry up to the first that ends the block is the decoded word at its address, fetch failures and the full block included |
| `Block.CachedNotLost` | bb/include/sim/bb.hpp:49-81 | a block that is in the cache holds no word whose fetch ends the process |
| `Block.BlockStable` | bb/include/sim/bb.hpp:49-81 | a block stays right while translation and the code bytes stay the same |
| `Exec.EndsLeave` | bb/include/sim/bb.hpp:19-35 | exactly branches and status instructions leave the straight line; any other goes on, exits by ECALL or is unimplemented |
| `Isa.FetchExactly` | simulator/include/sim/simulator.hpp:257-268 | what is fetched is the decoded word whose bytes are at the translated pc, or the status of the fetch that failed |
| `Isa.JumpStep` | simulator/include/sim/simulator/sim_instr.hpp:504-550 | JAL goes to pc plus the signed offset, JALR to rs1 plus it with bit 0 cleared; both leave pc + 4 in rd; a misaligned target is an error and changes nothing |
| `Isa.BranchStep` | simulator/include/sim/simulator.hpp:212-241 | each branch goes to pc plus the offset if its comparison holds (signed for BLT and BGE) and to pc + 4 otherwise, changing pc only; a misaligned target of a taken branch is an error |
| `Isa.CallAndReturn` | simulator/include/sim/simulator/sim_instr.hpp:504-550 | a JAL with rd = ra and a JALR through ra are back behind the call |
| `Isa.LoadStep` | simulator/include/sim/simulator.hpp:136-155 | LB, LH, LW and LD extend the bytes at the translated address as signed numbers, LBU, LHU and LWU as unsigned ones; an unsuccessful load ends the run with its status and changes nothing |
| `Isa.StoreStep` | simulator/include/sim/simulator.hpp:191-210 | SB, SH, SW and SD put the low bytes of rs2 at the translated address and change no register and no other byte |
| `Isa.StoreThenLoadByte` | simulator/include/sim/simulator.hpp:136-210 | SB followed by LB of the same address gives the low byte read as a signed number |
| `Isa.ArithmeticStep` | simulator/include/sim/simulator/sim_instr.hpp:47-293 | sums and differences modulo 2^64, W forms as the signed low 32 bits, comparisons as 0 or 1, LUI and AUIPC |
| `Isa.BitwiseStep` | simulator/include/sim/simulator/sim_instr.hpp:97-203 | every bit of the result of AND, OR, XOR and their immediate forms |
| `Isa.ShiftStep` | simulator/include/sim/simulator/sim_instr.hpp:205-381 | every bit of the result of a shift by less than the width; an amount of the width or more loses the process |
| `Isa.AuipcExactly` | simulator/include/sim/simulator/sim_instr.hpp:285-293 | AUIPC adds the sign-extended immediate if and only if its bit 31 is clear |
| `Isa.AmountExactly` | simulator/include/sim/simulator/sim_instr.hpp:295-325 | a register shift has the amount modulo the width if and only if the low byte of rs2 is below the width |
| `Isa.EcallStep` | simulator/include/sim/simulator/sim_instr.hpp:39-45 | ECALL retires, writes nothing and ends the run |
| `Isa.OtherStep` | simulator/gen_dispatch.py:37-45 | an instruction without a handler loses the process; a failed fetch or an illegal word ends the run with its status |
| `Refinement.HandleRefines` | simulator/include/sim/simulator/sim_instr.hpp:18-45 | a handler does what the reference machine does for the same instruction, including the unsuccessful loads and stores |
| `Refinement.ChainRefines` | simulator/include/sim/simulator/sim_instr.hpp:18-29 | the chain through a block runs the reference machine, stays inside the array and executes no stale entry |
| `Refinement.LookupRefines` | simulator/src/simulator.cpp:11-16 | looking up and filling a block changes no architectural state; it ends the process exactly when the window of pc holds a word whose fetch does, and otherwise keeps every cache and block right |
| `Refinement.IterateRefines` | simulator/src/simulator.cpp:10-29 | one iteration of the main loop is one or more reference steps, where the block can be fetched |
| `Refinement.RunRefines` | simulator/src/simulator.cpp:6-32 | for a run whose blocks can be fetched: after any number of iterations pc, registers, instruction count, memory and status are those of the reference machine after as many steps as were retired, at least one an iteration |
| `Refinement.RefinedExactly` | simulator/src/simulator.cpp:6-32 | a run is refined for every number of iterations if and only if no block it begins holds a word whose fetch ends the process, but for blocks whose first instruction does so itself |
| `LossExample.BlockFillLosesTheProcess` | bb/include/sim/bb.hpp:54-62 | a memory on which the reference machine exits after two instructions while the simulator loses the process in its first block fill, through the assertion on A and D |
| `Refinement.PreciseExit` | simulator/include/sim/simulator/sim_instr.hpp:504-580 | an ECALL retires and ends the run with the exit status; any other instruction that ends it changes nothing |
| `Refinement.DoneStatus` | simulator/src/simulator.cpp:19-28 | a step that ends a run has the exit status if and only if it is an ECALL, and never OK |
| `Application.ExitState` | simulator/src/simulator.cpp:19-28 | a finished run retired exactly j instructions, stands at the one that ended it, and but for ECALL is in the state before it |
| `Refinement.AlignedAndZero` | simulator/include/sim/simulator/sim_instr.hpp:504-580 | from an aligned pc and a zero x0, pc stays aligned and x0 stays zero at every step |
| `Refinement.RunKeepsTables` | memory/src/memory.cpp:166-170 | over whole runs no byte of an isolated page changes and translation stays the same function |
| `RunTheorems.RunKeepsTree` | memory/src/memory.cpp:165-223 | over whole runs no byte of the table region changes, spare pages included, so the tree is what it was and `map` refines the abstract mapper after the run as before it |
| `RunTheorems.TreeFetches` | memory/src/memory.cpp:158-162 | on tables of the mapper the assertion on A and D holds in every fetch |
| `RunTheorems.TreeSurvives` | simulator/src/simulator.cpp:10-16 | on such tables, isolated, every run can fetch every block it begins |
| `Simulator.Simulator.constructor` | simulator/include/sim/simulator.hpp:271-275 | registers are zero and nothing is cached |
| `Simulator.Simulator.LoadThrough` | simulator/include/sim/simulator.hpp:96-133 | status, value and cache are those of the cached load |
| `Simulator.Simulator.StoreThrough` | simulator/include/sim/simulator.hpp:157-188 | status, host memory and cache are those of the cached store |
| `Simulator.Simulator.FillBlock` | bb/include/sim/bb.hpp:50-81 | the block and the fetch cache are those of the fill function; no other block changes |
| `Simulator.Simulator.LookupBlock` | simulator/src/simulator.cpp:12-16 | the whole state is that of the lookup function |
| `Simulator.Simulator.Perform` | simulator/include/sim/simulator/sim_instr.hpp:37-580 | the whole state and the choice between going on and returning are those of the handler function |
| `Simulator.Simulator.RunChain` | simulator/include/sim/simulator/sim_instr.hpp:18-29 | the whole state and the status are those of the chain function |
| `Simulator.Simulator.Simulate` | simulator/src/simulator.cpp:6-32 | the whole state is that of the run function; OK is reported if and only if the run ended with the exit status, and any other status as it is |
| `Simulator.BbCache.Invalidate` | cache/include/sim/bb_cache.hpp:23-27 | every block loses its tag and starts with the not-implemented status |
| `RunTheorems.NothingCachedInv` | cache/include/sim/tlb.hpp:32-36 | with all tags empty, as after construction or invalidation, the run invariant holds for any memory with isolated tables, any registers and any code bytes |
| `DecoderTheory.GatherScattered` | instr/gen_decode.py:32-37 | gathering the sections of a scattered field gives each covered bit back |
| `DecoderTheory.DecodeEncode` | instr/gen_decode.py:21-75 | for every implemented instruction and all operands its format has, by a table of formats that is not the decoder's, the encoded word decodes to the same id, registers and sign-extended immediate |
| `DecoderWords.DecodesExactly` | risc-v.yaml:1834-2226 | each implemented instruction is decoded from exactly the words with its opcode, funct3 and funct7, as far as they are looked at |
| `DecoderWords.NoHandlerExactly` | risc-v.yaml:1834-2226 | a word decodes to an instruction without a handler if and only if it belongs to one of the other extensions |
| `DecoderWords.OperandsExactly` | instr/gen_decode.py:21-42 | of every word: rd is bits 11:7, rs1 bits 19:15, rs2 bits 24:20 where the format has them, and the immediate the signed number that the format spells |
| `DecoderWords.BothSources` | risc-v.yaml:3-12 | every decoded branch, store and register operation has bits 19:15 and 24:20 as its sources |
| `DecoderTheory.ShiftAmountsInRange` | risc-v.yaml:1834-2226 | for every word a decoded shift amount fits its operand width |
| `Decoder.DecodeShape` | instr/gen_decode.py:45-75 | every word decodes to an operation or the illegal-instruction status |
| `Bits.GetValue` | common/include/sim/common.hpp:125-134 | a field is the quotient by 2^lo modulo 2^width |
| `Bits.SetBit` | common/include/sim/common.hpp:137-150 | after setting a field its bits are the new ones and all others are as before |
| `Bits.GetAfterSet` | common/include/sim/common.hpp:125-150 | a field that was set reads back cut to its width |
| `Bits.GetFrame` | common/include/sim/common.hpp:125-150 | setting a field leaves every disjoint field alone |
| `Bits.SignExtendValue` | common/include/sim/common.hpp:107-122 | the extended value, read as signed, is the low bits read as signed |
| `Bits.MaskBits8DoesNotMask` | common/include/sim/common.hpp:153-161 | for 8-bit operands masking from bit 0 keeps the whole byte, so it is right if and only if the byte is below 2^(hi+1) |
| `Bits.MaskBits8Witness` | simulator/include/sim/simulator/sim_instr.hpp:295-304 | a register shift by 64 is masked to 64 instead of 0 |
| `LoaderTheory.ProperlySized` | elf_load/src/elf_load.cpp:38-69 | a segment whose file size is at most its memory size stays in its pages |
| `LoaderTheory.PageStep` | elf_load/include/sim/elf_load.hpp:51-71 | mapping one page keeps tables well formed and earlier pages as they were; on success the shadow and the tables agree, the relation is injective, and the page is new and zero |
| `LoaderTheory.RoomLeft` | elf_load/include/sim/elf_load.hpp:58-60 | page numbers handed out while mapping succeeds never reach 2^44 |
| `LoaderTheory.LoadedTranslate` | elf_load/include/sim/elf_load.hpp:51-71 | every access type translates a page of the shadow to the page it names; other keys fault |
| `LoaderTheory.LoadedIsolated` | elf_load/include/sim/elf_load.hpp:43-47 | user stores cannot reach the table region, spare pages included |
| `LoaderTheory.StackStep` | elf_load/include/sim/elf_load.hpp:81-92 | each stack page can be mapped after those before it, and the tables it adds are the ones expected |
| `LoaderTheory.ChunkStep` | elf_load/src/elf_load.cpp:51-70 | for one chunk of a segment that stays in its pages the page is found, the zero written to its start harms nothing, the bytes copied so far are right and earlier pages are kept |
| `LoaderTheory.AllCopied` | elf_load/src/elf_load.cpp:51-70 | after the last chunk each byte of the segment is the file byte, or zero beyond the file size |
| `LoaderTheory.KeepsSegment` | elf_load/src/elf_load.cpp:30-72 | later pages and segments never disturb a loaded segment |
| `LoaderTheory.ImageThroughTables` | elf_load/src/elf_load.cpp:34-71 | each segment byte, translated for any access type, is the file byte, or zero beyond the file size |
| `Loader.ElfLoader.constructor` | elf_load/include/sim/elf_load.hpp:40-49 | only the root table exists, nothing is mapped, and pages outside the region keep what they hold |
| `Loader.ElfLoader.MapPage` | elf_load/include/sim/elf_load.hpp:51-71 | the assertion that the page is new fails exactly when it is not; otherwise status, tables and mappings are those of the abstract mapper, and on success the shadow gains exactly this page |
| `Loader.ElfLoader.MapStack` | elf_load/include/sim/elf_load.hpp:81-92 | on success the stack pages are new and zero and sp is their end; on a fresh loader with free pages it succeeds with the allocator at table 10 |
| `Loader.ElfLoader.MapSegment` | elf_load/src/elf_load.cpp:38-48 | on success exactly the pages the segment touches were added, none of them mapped before |
| `Loader.ElfLoader.CopyChunk` | elf_load/src/elf_load.cpp:52-69 | the assertion that the page is mapped fails exactly when it is not; otherwise only that page changes, by the zero and the chunk, and in a segment that stays in its pages the next chunk is in place and earlier contents are kept |
| `Loader.ElfLoader.CopySegment` | elf_load/src/elf_load.cpp:50-70 | terminates, with the whole segment in place and earlier contents kept when it stays in its pages |
| `Loader.ElfLoader.LoadSegments` | elf_load/src/elf_load.cpp:30-72 | on success all segments of the list are in place and what was loaded before still is, when they stay in their pages |
| `Csr.PackedField` | csr/gen_csr_value.py:124-141 | with disjoint fields getValue holds each field cut to its width |
| `Csr.LegalisedField` | csr/gen_csr_value.py:100-141 | setValue then getValue shows each field of the raw value, with illegal enumerated fields zero |
| `Csr.LegalisedBit` | csr/gen_csr_value.py:100-141 | exactly the bits of the legal fields survive |
| `Csr.WriteBackChangesNothing` | csr/gen_csr_value.py:100-141 | writing back what was read changes no field |
| `Csr.UnchangedExactly` | csr/gen_csr_value.py:100-141 | a raw value reads back unchanged if and only if it is legal and has no bit outside the fields |
| `Csr.SatpKeeps` | csr/csr.yaml:9-16 | satp keeps a raw value if and only if its mode is known, and keeps the page number in any case |
| `Csr.CsrValue.SetValue` | csr/gen_csr_value.py:100-122 | stores every field of the raw value, illegal enumerated values as zero |
| `Csr.CsrValue.ReadValue` | csr/gen_csr_value.py:124-141 | the packed value, in which disjoint fields hold what is stored |
| `Csr.RawCsrsBits` | memory/src/memory.cpp:100-112 | what translation reads of two written registers: the mode (off when it is unknown), the root, MXR and SUM are those bits of the raw values |
| `Csr.WriteBackKeepsTranslation` | csr/gen_csr_value.py:100-141 | reading satp and mstatus and writing them back changes no translation |
| `Csr.PackedCsrs` | csr/gen_csr_value.py:124-141 | every configuration with a 44-bit root can be packed into raw values that give it back |
| `Application.SetUpPaging` | sim_app/src/sim_app.cpp:55-57 | a zero satp with its mode set to Sv39, and a zero mstatus, are the configuration the loader's theorems are about |
| `Application.LoadedRun` | sim_app/src/sim_app.cpp:46-59 | any run on memory that the loader built is a run of the reference machine |
| `Application.RunProgram` | sim_app/src/sim_app.cpp:43-59 | when loading succeeds, all segments that stay in their pages are in place through the page tables, and n iterations of the simulation either go on after at least n instructions or have stopped at an instruction that is exactly known, in the state of the reference machine and with every table page as it was; OK is reported if and only if that instruction is an ECALL, and otherwise the status of its step |

## Left out

- Reading the ELF file (libelf, open, read, lseek): the segments are given as a list of byte sequences with their addresses and sizes.
- Host memory mapping (mmap, munmap) and pointer casts: host pages are pairs of mapping number and page index; a pointer is such a pair.
- Logging, printing of registers and generation of source text.
- Floating-point, atomic, multiplication, CSR and fence instructions: they decode to one unimplemented operation without operands, whose null handler ends the run with `ABORT`; so `rm`, `rs3`, `aq` and `rl` are not modelled.
- Self-modifying code and changes of satp, mstatus or the mappings during a run: excluded by assumption, since cached blocks are not invalidated.
- Simulator.Simulator.Simulate: runs a given number of iterations instead of an endless loop; the count is arbitrary.
- Simulator.BbCache.Invalidate: blocks are rows of one two-dimensional array instead of an array of objects.
- Loader.ElfLoader.LoadSegments: requires addresses that do not run past the last page of the address space, where the loops of the source would overflow; says nothing about contents when the file bytes of a segment run out of its pages, where the source stops on an assertion or writes over earlier pages; a file with a segment the source does not load (not PT_LOAD) is the list without it.
- Loader.ElfLoader.MapPage: the branch for untranslated (BARE) mode, which no caller selects.
- Refinement.RunRefines: the instruction count is unbounded; its wrap-around after 2^64 instructions is not modelled.
- The 32-bit variant of the generated registers.
- `isCSRWritable` and `getCSRPrivLevel`: not used by the modelled parts.
- Privilege levels other than user during simulation: the simulator translates as user only; `Mmu.Translate` covers all three.
