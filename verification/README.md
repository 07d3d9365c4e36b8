# A verified model of the cRISC-V emulator

This project models the core, the memory management unit, the bus, the ELF loader and the
run loop of cRISC-V, an RV32I emulator in C, and proves what they do over every input and
every run. `dafny verify dfyconfig.toml` checks it all.

## How it is laid out

Each component comes twice. The classes `MmuUnit`, `BusUnit`, `CsrUnit` and `CoreUnit`
update their fields and arrays in place, as the C code does; every method is proved to take
the value of its object to what a function on values says. The laws are then proved about
those functions.

| file | what it holds |
|---|---|
| `Words.dfy` | 8-, 32- and 64-bit words, their wrap-around arithmetic, byte order |
| `Numbers.dfy` | what every operation on words computes, in integers |
| `Mmu.dfy` | the byte-granular MMU: permissions, bump cursor, dirty map; `MmuUnit` |
| `Allocator.dfy` | safety of the allocator over any run of allocations |
| `History.dfy` | what an MMU holds after any sequence of operations |
| `Bus.dfy`, `BusLaws.dfy`, `Strings.dfy` | RAM adapter, device list, mutex; widths, byte order, block loading, strings; `BusUnit` |
| `Accesses.dfy` | every path of every access, from the MMU up to the calls of the bus, told from bases, sizes, bytes and permissions |
| `Csr.dfy` | the 32-bit accessors of the 64-bit control and status registers; `CsrUnit` |
| `Elf.dfy` | the segment loop of the loader |
| `Decoder.dfy`, `Core.dfy`, `Cpu.dfy` | decode, execute, the stages, traps and the run loop; `CoreUnit` |
| `Isa.dfy` | RV32I by chapter 2 of the RISC-V Instruction Set Manual Volume I, version 20191213: formats, encodings, one atomic step of a hart. It does not use the emulator's decoder |
| `Integers.dfy` | the same step of the hart over integers, without machine words |
| `Encoding.dfy`, `Pipeline.dfy`, `Conformance.dfy` | the pipeline against one step of the hart |
| `Fates.dfy`, `Undefined.dfy` | what the core does with every 32-bit word, reserved ones included |
| `Prefetch.dfy`, `PrefetchRuns.dfy`, `PrefetchExactly.dfy` | the prefetch buffer against a core that reads memory at every fetch |
| `Traps.dfy` | precise traps, exactly-once handling, the cycle account |
| `ProgramRuns.dfy`, `Readiness.dfy`, `Samples.dfy` | whole programs with their system calls: the run loop against a fetching hart; programs that run, and machines that deviate |

An operation that never returns in C (a failed assertion, a null function, a write out of
bounds, a mutex that is locked twice) has the result `Halts`. A byte the C code leaves
uninitialised is a parameter called `junk`.

## Main results

* `ProgramRuns.ProgramsRefineIsa`: the run loop, with its staged pipeline, its prefetch buffer
  and its trap states, takes every program with its system calls where an atomic hart takes
  it that fetches each instruction from its own memory. The conditions are those under which
  each single instruction conforms; `Readiness.ReadyAtSight` tells them from the instruction, the
  registers and the memory at each event, and `Samples.SampleRuns` is a program with a store and
  a system call that meets them.
* `Conformance.PipelineRefinesIsa`: for every encodable instruction and every machine state, the
  pipeline does what the manual says if and only if `Deviates` is false; `Samples.DeviationsAreSeen`
  exhibits machines that are seen to deviate. `Conformance.PipelineComputes` says the same with the
  manual told in integers: sums modulo 2^32, comparisons of signed and unsigned readings, shifts
  as multiplication and floor division, bit by bit logic, little-endian loads and stores.
* `PrefetchExactly.InvisibleExactly`: over every sequence of inputs, with traps, handlers and aborting
  runs, the prefetching core and the core that reads memory at each fetch are alike at every turn
  if and only if each word served from the buffer is readable and equal to memory at that moment
  and each refill finds its whole block readable when it finds the word at pc readable.
  `PrefetchRuns.PrefetchIsInvisible` gives a condition on stores alone that is enough, and
  `Prefetch.StoreCoherence` says which stores break the buffer.
* `Undefined.CoreMeetsEveryWord`, `Undefined.AbortsExactly`: what becomes of the core for each of the
  2^32 words. A word that is carried out is carried out as the instruction that its canonical form
  encodes (`Fates.CarriedOutAsCanonical`): MUL runs as ADD, DIV as XOR, SRAI as SRLI.
* `Traps.TrapsArePrecise`, `Traps.EveryCycleIsAccountedFor`: every trap leaves registers, pc and
  memory as they were; an environment call resumes after itself with its answer in register 10
  and all other registers as before, any other trap stops the machine; each trap is handled once; and the cycle counter is the sum of the costs 5, 5, 6, 7.
* `History.ReadAfterWrite`, `History.LastWriterWins`, `History.DirtyExactly`,
  `Allocator.AllocationsAreSafe`, `Elf.LoadExactly`, `Elf.HeapAvoidsSegmentsExactly`,
  `BusLaws.LockBalance`, `BusLaws.FindExactly`, `PrefetchRuns.AddressMap`,
  `Accesses.BlockStoreExactly`, `Accesses.BlockRoundTrip`.

## Where the code differs from its documentation

The repository's README promises that the RV32I base set is fully implemented. `Deviates` lists
exactly when that fails: SRA and SRAI of a negative number by a distance other than 0, ORI with a
negative immediate whose upper bits matter, LB and LH of a negative value, a jump or taken branch
to an address that is not a multiple of four, an access that a device answers for and the MMU
refuses, FENCE, and EBREAK. The code is modelled as it is: a refused access raises no trap, the
status names READ_PAGE_FAULT and WRITE_PAGE_FAULT are swapped between the two operations, a
RAW byte is writable without WRITE, the block store returns bytes where its caller compares
elements and then keeps the mutex, and clearing bits of a CSR also clears its upper half.

## Model

| member | source | states |
|---|---|---|
| ProgramRuns.ProgramsRefineIsa | src/emulator.c:178-191 | the run loop over a trace of instructions and environment calls ends in exactly the registers, pc and memory of a hart that fetches each word from memory and executes it atomically, and the invariants hold again |
| ProgramRuns.EventsConform | src/cpu.c:487-512 | one instruction or one environment call: from a coherent FETCH state the turns of the loop do what one step of the hart, or the answer of its environment, does |
| ProgramRuns.TurnsAreCycles | src/emulator.c:178-181 | up to the next FETCH or TRAP state the turns of the loop are cycles of the core; the handler is not called on the way |
| Readiness.ReadyAtSight | src/cpu.c:79-95 | for instructions and environment calls, the conditions of the program theorem follow from the instruction, the registers and the memory at the pc: a store that misses the block a fetch would read, and no deviation |
| Readiness.ProgramsRefineIsaAtSight | src/emulator.c:178-191 | the program theorem for a whole trace whose events meet those conditions |
| Samples.SampleRuns | src/emulator.c:178-191 | a program of a store, a NOP and an environment call meets the conditions and ends with pc 12, 42 in register 10 and the stored word in memory |
| Samples.DeviationsAreSeen | src/cpu.c:208-271 | on machines at a fetch, SRA of a negative register, ORI with a negative immediate, FENCE and EBREAK are seen to do something else than the manual says |
| Readiness.MissingIsSafe | src/cpu.c:414-426 | no cycle of an instruction overwrites a prefetched word unless it is a store into the block fetched ahead |
| Conformance.PipelineRefinesIsa | src/cpu.c:487-512 | for every encodable RV32I instruction and every state, the five stages have the outcome of one atomic step of the manual if and only if `Deviates` is false |
| Conformance.PipelineComputes | src/cpu.c:192-391 | the same equivalence with the manual in integers: the numbers an instruction leaves in the registers, the pc and memory, or its exception |
| Integers.StepMeans | src/cpu.c:487-512 | a step over machine words, read as integers, is the step over the integers, for every instruction and hart |
| Integers.RegResultMeans | src/cpu.c:200-211 | rd of the register instructions: sum and difference modulo 2^32, product with and floor division by 2^(rs2 mod 32), order of the signed and the unsigned readings, logic bit by bit |
| Integers.ImmResultMeans | src/cpu.c:260-268 | the same for the immediate instructions, the immediate being a signed number |
| Integers.HoldsMeans | src/cpu.c:315-322 | when a branch is taken, by the signed or unsigned readings |
| Integers.LoadMeans | src/memory.c:70-89 | a load is the little-endian number in memory, LB and LH its two's complement reading |
| Integers.StoreMeans | src/memory.c:91-106 | a store leaves the digits of the number to the base 256, the least significant first |
| Integers.RegisterFields | src/cpu.c:113-121 | rd, rs1 and rs2 are bits 7 to 11, 15 to 19 and 20 to 24 of the word, as numbers |
| Numbers.SignedLessMeans | src/cpu.c:204 | the signed comparison orders words by their two's complement readings |
| Numbers.LessMeans | src/cpu.c:205 | the unsigned comparison orders words by their values |
| Numbers.BitwiseMeans | src/cpu.c:206-210 | bit k of the xor, or and and of two words is that of their bits k |
| Numbers.ShiftRightSignedMeans | src/cpu.c:208 | the arithmetic shift of the manual is floor division of the signed reading; the code shifts logically (Conformance.Deviates) |
| Conformance.EveryInstructionConforms | src/cpu.c:192-391 | the same equivalence for the effect the stages plan for each instruction |
| Encoding.DecodeUndoesEncode | src/cpu.c:100-183 | decode and execute recover all register fields and every in-range I, S, B, U and J immediate from the manual's encoding, whatever an earlier instruction left behind; FENCE is stopped in decode |
| Encoding.FieldsB | src/cpu.c:144-156 | a branch offset survives being stored shifted right by one in 12 bits |
| Encoding.FieldsS | src/cpu.c:140-142 | a store offset survives its split field |
| Encoding.JumpImmediate | src/cpu.c:354-357 | a jump offset survives 20 bits and the xor-and-subtract sign extension |
| Encoding.ImmediateJ | src/cpu.c:162-175 | the left and right shift of the decoder gathers the scrambled jump immediate |
| Pipeline.IssueCarriesOut | src/cpu.c:486-501 | from the fetch of an encodable instruction the stages carry out its plan: registers, pc, bus and trap cause, nothing else |
| Undefined.CoreMeetsEveryWord | src/cpu.c:192-391 | for every 32-bit word the core fetches: an abort for the undefined loads, stores and JALR, the illegal instruction trap, the environment call trap, a branch on the stale aluOut with its exact next pc, and for every other word the effect on registers, pc, bus and trap cause of the instruction it is carried out as |
| Undefined.AbortsExactly | src/cpu.c:272-304 | the core aborts on a fetched word if and only if the word is an undefined load, store or JALR, or is carried out as a load or store on a locked bus or as a store to a device without write permission |
| Fates.CarriedOutAs | src/cpu.c:192-371 | decode and execute carry out every word of this class, reserved ones included, as one instruction with the word's own register and immediate fields |
| Fates.CarriedOutAsCanonical | src/cpu.c:121-134 | that instruction is the one whose encoding is the word with the low five bits of funct7 dropped in OP and all of funct7 in the immediate shifts |
| Fates.ReservedWordsRun | src/cpu.c:198-219 | MUL x1, x2, x3 runs as ADD, DIV as XOR, and SRAI as SRLI |
| Undefined.EveryWordMeetsItsFate | src/cpu.h:52-180 | decode and execute send each word to its class, judged from opcode, funct3 and the top two bits of funct7 alone |
| Prefetch.StoreCoherence | src/cpu.c:414-426 | a completed store keeps the buffer coherent if and only if it changes no byte of the unread window |
| Prefetch.OverwritesExactly | src/mmu.c:166-195 | the window differs after a store exactly when the store is admitted and one of its bytes lies in the window and differs |
| Prefetch.FetchIsCoherent | src/cpu.c:79-95 | a fetch from a coherent buffer delivers the word in memory at pc; it takes in a whole block if the buffer is empty and takes one word out otherwise, and the unread words equal memory from pc+4 on |
| Prefetch.RefillIsCoherent | src/cpu.c:81-87 | a refill makes the buffer equal to memory from pc on |
| Prefetch.CycleMatches | src/cpu.c:491-501 | one cycle takes matching cores to matching cores and keeps coherence unless a store overwrites the window |
| PrefetchExactly.InvisibleExactly | src/cpu.c:79-95 | over every run, aborting ones included, the prefetching core and the core that reads memory at each fetch are alike at every turn if and only if each fetch is fresh: the served word is readable and equals memory at pc, or the refilled block is readable whenever the word at pc is |
| PrefetchExactly.TickExactly | src/emulator.c:178-191 | one turn of the loop, handler included, takes matching machines to alike ones if and only if the fetch is fresh |
| PrefetchExactly.SafeRunIsFresh | src/cpu.c:414-426 | a run that starts coherent and in which no store changes an unread prefetched word is fresh |
| PrefetchRuns.PrefetchIsInvisible | src/cpu.c:79-95 | a sufficient condition on stores: if no turn stores into an unread prefetched word, the two cores agree state for state over a run that does not abort |
| PrefetchRuns.TicksMatch | src/emulator.c:178-191 | one turn of the loop, the handler included, keeps the two cores matched |
| PrefetchRuns.StaleFetchParts | src/cpu.c:88-90 | once a prefetched word differs from memory and is fetched, the two cores differ |
| PrefetchRuns.AddressMap | src/config.h:13-23 | on the emulator's device list RAM answers from 0x10000 to 0x7fffe, the CSR window in the 4096 bytes from 0x1abfff on, and nothing elsewhere |
| PrefetchRuns.BootIsCoherent | src/emulator.c:14-29 | on the emulator's own bus a freshly initialised core is coherent whatever has been loaded |
| Traps.TrapsArePrecise | src/cpu.c:452-484 | any trapping instruction: the environment call resumes at pc+4 with the answer in register 10, every other register as before and the handler's memory operations; a call that does not go on ends the run with its effects; any other cause stops the machine at the instruction with nothing changed |
| Traps.TrapRoundTrip | src/cpu.c:458-483 | enter, handle and exit in three turns: register 10 holds the answer, register k its old value for every other k, the pc is past the call, memory is what the handler left |
| ProgramRuns.OnlyTheAnswerChanges | src/syscall.c:42 | a call changes register x10, as instructions read it, and no other register |
| Traps.OtherTrapsStop | src/emulator.c:124-165 | a trap that is not an environment call ends the run with registers, pc and bus unchanged |
| Traps.TrapTouchesNothing | src/cpu.c:73-77 | from fetch to trap entry registers, pc and memory do not change |
| Traps.EveryCycleIsAccountedFor | src/cpu.c:487-501 | over every run, turns equal the costs 5 per untrapped instruction and 5, 6, 7 per trap in decode, execute, memory, up to the instruction in progress; the counter holds their sum modulo 2^64; every trap caused is handled once |
| Traps.RunSound | src/cpu.c:97-98 | in every reachable state x0 is zero, so the guarded read is the stored register, TRAP and the trap state go together, and mepc holds the pc while a trap is handled |
| Traps.TrapStepReturns | src/cpu.c:458-459 | the asserting NONE arm of trap is unreachable |
| Traps.CycleSound | src/cpu.c:487-501 | each cycle keeps that invariant |
| Traps.HandlerSound | src/emulator.c:124-134 | the handler keeps it, reading mcause and mepc by clearing nothing |
| History.ReadAfterWrite | src/mmu.c:197-216 | a run of raw allocations of any size, writes and reads on a unit at any base returns if and only if it is accepted, told from the operations alone; after it a read succeeds if and only if every byte was written since an allocation last covered it, and returns the last values written |
| History.RawWritesSucceed | src/mmu.c:166-177 | after such runs a write succeeds exactly when it is inside the unit |
| History.SizedIsAccepted | src/mmu.c:117-127 | from a base other than 0, allocations whose rounding does not wrap around are all accepted |
| History.LastWriterWins | src/mmu.c:178-179 | over any operations each byte is the last value stored there |
| History.DirtyExactly | src/mmu.c:188-193 | page i is dirty exactly when some successful write covered byte 64*i+63 |
| History.PermissionsGrow | src/mmu.c:181-186 | no interleaving of reads and writes revokes READ, WRITE or EXEC |
| History.WriteIsExact | src/mmu.c:166-195 | a write succeeds exactly in range and on bytes that are writable or raw, changes exactly its bytes, and a failed one changes nothing |
| History.StatusIsLast | src/mmu.c:166-216 | after any operations the status word is that of the last read or write, on the unit as the operations before it left it |
| History.AllowsExactly | src/mmu.c:142-164 | the mask tests of the access check mean: each byte is writable or raw, or each byte is readable |
| Allocator.AllocationsAreSafe | src/mmu.c:116-134 | any run of allocations of any size from a cursor of 16 or more: the blocks ascend without overlap strictly inside the unit, keep the alignment of the first cursor, and carry their permissions while no other byte changes; from a lower cursor the same for sizes whose rounding does not wrap, and these never abort from a cursor other than 0 |
| Allocator.AllocateHaltsExactly | src/mmu.c:119-129 | for any size, an allocation aborts exactly when it passes the size test and the truncated cursor is 0 or its range leaves the unit |
| Allocator.AllocateOutcome | src/mmu.c:117-134 | for any size, an allocation that returns changes nothing and answers 0, or hands out exactly the bytes from the cursor on |
| Allocator.RoundUpCovers | src/mmu.c:119 | rounding covers the request exactly when adding 15 stays in 32 bits |
| Allocator.OversizedGetsNoBlock | src/mmu.c:119-129 | a larger request gets no block from a cursor of 16 or more |
| Allocator.OversizedBlockPassesCursor | src/mmu.c:119-129 | if a larger request gets a block, the cursor was below 16 and the block runs past the new cursor |
| Elf.LoadIsExact | src/elf32.c:23-43 | well placed LOAD segments in any order: no write is refused, every file byte is at its address with the permissions of p_flags, the tail is WRITE and RAW with its old bytes, nothing else changes, and the cursor is at the end of the last segment |
| Elf.LoadExactly | src/elf32.c:9-46 | for well placed segments, loading returns if and only if class and encoding are 1; the entry is that of the header, and every header of kind 1, the last one included, has its bytes in place |
| Elf.HeapAvoidsSegmentsExactly | src/elf32.c:25-29 | after loading a file into any unit inside the address space, no later allocation of any size overlaps a segment if and only if no segment is within reach of the cursor (from a cursor below 16: no allocation whose rounding does not wrap) |
| Elf.AscendingSegmentsAreSafe | src/mmu.c:108-111 | after loading a file with ascending segments every later allocation, with the same proviso on sizes, lies past all of them and leaves them as loaded |
| Elf.SegmentAccess | src/elf32.c:36-41 | after loading a file, a byte of a segment is readable and executable exactly when p_flags say so and writable exactly when they say readable or writable; bytes past the file part are writable only |
| Elf.SegmentLoads | src/elf32.c:25-41 | one fitting segment: data, permissions and cursor afterwards, everywhere |
| Elf.LoadFile | src/elf32.c:9-46 | the loop on the MMU object ends where the load function does, or aborts when it does |
| Elf.PlaceSegment | src/elf32.c:25-41 | the body of the loop on the MMU object |
| Mmu.MmuUnit.constructor | src/mmu.c:40-78 | a new unit is all zero, clean, WRITE and RAW, with the cursor at its base |
| Mmu.MmuUnit.SetPermissions | src/mmu.c:29-37 | the loop sets exactly the range, or reports the assertion and changes nothing |
| Mmu.MmuUnit.AddRegion | src/mmu.c:80-114 | the in-bounds branch moves the cursor to the end of the range and sets its permissions |
| Mmu.MmuUnit.AllocateBlock | src/mmu.c:117-134 | the whole new state and the address, or 0 with no change, or the assertion |
| Mmu.MmuUnit.CheckAccess | src/mmu.c:142-164 | the loop returns true exactly when every byte of the range grants the request |
| Mmu.MmuUnit.WriteFrom | src/mmu.c:166-195 | data, permissions, dirty marks, status and count of a write, on every path |
| Mmu.MmuUnit.PromoteRange | src/mmu.c:181-186 | the permission loop turns exactly the raw bytes of the range readable and writable, keeping EXEC |
| Mmu.MmuUnit.MarkRange | src/mmu.c:188-193 | the dirty loop marks exactly its pages |
| Mmu.MmuUnit.ReadInto | src/mmu.c:197-216 | the bytes copied and the status, on every path, with the memory unchanged |
| BusLaws.FindExactly | src/bus.c:58-71 | the lookup finds device k exactly when base + size stays below 2^32, the address lies from base up to that sum, and no earlier device claims it; a window whose end wraps is empty |
| BusLaws.LookupIgnoresOrder | src/bus.c:62-68 | the answer is the same for every order of the list if and only if all devices that claim the address are the same |
| BusLaws.StoreThenLoad | src/memory.c:70-106 | a store then a load at the same address and width returns the value cut to the width |
| BusLaws.LoadIsByteLoads | src/memory.c:70-89 | a load of any width, aligned or not, is its byte loads put together, least significant first |
| BusLaws.StoreIsByteStores | src/memory.c:91-106 | a store of any width leaves the memory its byte stores leave |
| BusLaws.StoreWordsIsExact | src/emulator.c:32-40 | after loading, every word of the image reads back from its place and no other byte has changed |
| BusLaws.LoadIntoRam | src/emulator.c:32-40 | the loop of load_into_ram does exactly those stores and drops a trailing part of a word |
| BusLaws.LockAfter | src/bus.c:106-184 | a transaction that returns holds the mutex afterwards exactly when it is an unbalanced block store |
| BusLaws.LockBalance | src/bus.c:160-184 | a run that returns ends with the mutex held exactly when its last transaction is an unbalanced block store |
| BusLaws.WideBlockStoreKeepsLock | src/bus.c:176-180 | every block store of halfwords or words keeps the mutex although its bytes were written |
| Accesses.BlockStoreExactly | src/bus.c:160-184 | a block store to RAM: count and status returned, bytes copied in order, device and MMU status, mutex, whether granted, refused or of another width |
| Accesses.BlockLoadExactly | src/bus.c:119-141 | a block load from RAM: count, bytes in order and statuses, granted or refused |
| Accesses.BlockRoundTrip | src/memory.c:36-68 | a byte block of n bytes stored reports n and reads back as it was, the data being the old data with it copied over |
| Accesses.SingleLoadExactly | src/memory.c:70-89 | a single load: the little-endian number if granted, 0 or an undetermined byte if refused, with every status |
| Accesses.SingleStoreExactly | src/memory.c:91-106 | a single store: exactly the bytes of the value in memory if granted, nothing if refused, with every status |
| Accesses.StoredDigits | src/memory.c:91-106 | those bytes are the digits of the value to the base 256 |
| Accesses.UnclaimedAccess | src/bus.c:106-184 | an address no device claims: 0x0badc0de, no bytes, status ADDRESS_NOT_FOUND, nothing else changed; a held mutex stops every call |
| Accesses.WindowAccess | src/csr.c:122-152 | the CSR window reads as 0 and drops stores, and block accesses to it never return |
| Accesses.RefusedDevice | src/bus.c:149-173 | which stores abort: without write permission, and for blocks a device that is not READY |
| Accesses.WriteExactly | src/mmu.c:166-195 | status, count, bytes and permissions of a write on every path |
| Accesses.ReadExactly | src/mmu.c:197-216 | status and bytes of a read on every path |
| Accesses.AddMemoryExactly | src/mmu.c:80-114 | adding memory returns exactly in bounds, moves the cursor to the end and sets the permissions of the range |
| Accesses.NewUnit | src/mmu.c:40-78 | a new unit: zero, writable and raw only, clean, cursor at the base |
| Bus.BusUnit.Find | src/bus.c:58-71 | the walk over the list returns what the lookup function says and sets the status accordingly |
| Bus.BusUnit.ReadRamBlock | src/memory.c:56-68 | count, bytes and device state of a RAM read |
| Bus.BusUnit.WriteRamBlock | src/memory.c:36-54 | memory, byte count and device state of a RAM write |
| Bus.BusUnit.Load | src/bus.c:106-117 | the value and the whole state of the bus after a single read, or that it waits for ever |
| Bus.BusUnit.LoadBlock | src/bus.c:119-141 | the same for a block read |
| Bus.BusUnit.Store | src/bus.c:143-158 | the whole state of the bus after a single write |
| Bus.BusUnit.StoreBlock | src/bus.c:160-184 | the whole state of the bus after a block write, mutex included |
| Strings.StringEnds | src/bus.c:93-104 | a string read always ends, at the first zero byte or at the first unmapped address, and changes no memory |
| Strings.StringIsRead | src/bus.c:93-104 | where memory holds a readable string, exactly it is read with its zero |
| Strings.LoadString | src/bus.c:98-101 | the loop collects exactly those bytes |
| Csr.ClearDropsHighHalf | src/csr.c:47-55 | clearing bits also clears the upper 32 bits |
| Csr.ReadIsHarmless | src/csr.c:47-55 | reading by clearing nothing leaves the registers as they were exactly when the upper half was zero |
| Csr.WriteThenRead | src/csr.c:27-35 | a word written reads back, and reading it changes nothing |
| Csr.SetKeepsHighHalf | src/csr.c:37-45 | setting bits sets them in the low half and keeps the high half |
| Csr.CsrUnit.ReadWrite32 | src/csr.c:27-35 | old low half returned, register replaced, all others kept |
| Csr.CsrUnit.ReadSet32 | src/csr.c:37-45 | old low half returned, mask set, all others kept |
| Csr.CsrUnit.ReadClear32 | src/csr.c:47-55 | old low half returned, mask and upper half cleared, all others kept |
| Core.NewCore | src/cpu.c:32-60 | a new core: all registers 0, the given pc, FETCH, no trap, an empty prefetch buffer, no access pending |
| Cpu.CoreUnit.constructor | src/cpu.c:32-60 | a new core is zeroed, in FETCH, at the given pc with an empty buffer |
| Cpu.CoreUnit.CauseTrap | src/cpu.c:73-77 | the trap states and mcause, nothing else |
| Cpu.CoreUnit.FetchInstruction | src/cpu.c:79-95 | refill or serve, as the fetch stage says, on buffer, counter and bus |
| Cpu.CoreUnit.Decode | src/cpu.c:100-183 | the decoded fields filled in step by step are those of the decoder, or a trap is caused |
| Cpu.CoreUnit.Execute | src/cpu.c:192-391 | the switch leaves decoded, aluOut and trap state as the execute stage says, or aborts when it does |
| Cpu.CoreUnit.MemoryAccess | src/cpu.c:393-427 | the access, its result and the trap for its status |
| Cpu.CoreUnit.Writeback | src/cpu.c:429-450 | register, pc and flush |
| Cpu.CoreUnit.StepTrap | src/cpu.c:452-484 | save, wait and restore as the trap states say |
| Cpu.CoreUnit.RunCycle | src/cpu.c:486-512 | one cycle in place is one cycle of the machine |
| Cpu.CoreUnit.AnswerTrap | src/emulator.c:124-165 | the handler in place is the handler of the machine, for any effect of the host |
| Cpu.CoreUnit.RunThread | src/emulator.c:167-206 | the loop in place ends exactly where the run loop of the machine does, in state and in reason |

## Left out

- ProgramRuns.ProgramsRefineIsa: one uninitialised byte value serves a whole trace; no admitted load reads it.
- Conformance.PipelineRefinesIsa: covers words that encode RV32I instructions; all other words are in Undefined.CoreMeetsEveryWord. The fetch must succeed for the whole block, since a failed one ends in a failed assertion.
- PrefetchRuns.PrefetchIsInvisible: one direction, for runs that do not abort; the exact condition over all runs is PrefetchExactly.InvisibleExactly.
- Mmu.MmuUnit.AddRegion: the branch that extends the unit resizes its permissions in bytes instead of elements and then writes past them, so the model ends there with `Halts`.
- Allocator.AllocationsAreSafe: from a cursor below 16 a request whose rounding wraps around is excluded, because the property is false there (Allocator.OversizedBlockPassesCursor); the emulator's cursor starts at 0x10000.
- Elf.HeapAvoidsSegmentsExactly: the same exclusion for a cursor below 16.
- Elf.AscendingSegmentsAreSafe: the same exclusion for a cursor below 16.
- History.ReadAfterWrite: units whose end lies past 2^32 are not covered, since the cursor is a 32-bit variable in mmu_allocate.
- Elf.LoadFile: the headers are already parsed, and a segment that leaves the file is `Halts` even where the MMU would refuse the write before reading it.
- Strings.LoadString: the destination grows as needed, and all uninitialised bytes have one value.
- Cpu.CoreUnit.AnswerTrap: a system call is any sequence of MMU operations, an optional a0 and a decision; the files, descriptors and break arithmetic of src/syscall.c and the bus status a call leaves are not modelled. sys_read and sys_fstat write through bus_write_multiple: when that is refused it keeps the mutex, so that the next fetch waits for ever, and when a device was left in ERROR it fails an assertion; neither can be expressed as a system call of the model (BusLaws.LockAfter has the block store itself).
- Cpu.CoreUnit.RunThread: takes as many turns as it has inputs, since the loop in C has no end of its own.
- The prefetch depth is a parameter from 1 to 16; depth 8 is the emulator's, depth 1 is the core without prefetch.
- Multiple cores, thread scheduling and the moment at which the status is read after unlocking: one core runs.
- Video, whose header is not part of this model, and with it any memory that it adds to the MMU.
- The callbacks of the CSR window and csr_init, which are stubs; the window has null block accessors, so a fetch from it is `Halts`.
- The 64-bit CSR accessors, csr tracing, and registers that the core never reads.
- emulator_run's set-up of stack and arguments, reading files, main, timing and trace output.
- Failure of malloc and realloc, and layout of C structures except that instruction and prefetch form one buffer.
- The misaligned statuses of the bus, which nothing in the code sets.
