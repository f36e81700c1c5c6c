# Xenith in Dafny

Xenith is an x86-64 operating system in Rust with its own boot loader, instruction encoder and
decoder, emulator, file-system format and executable loader. This project models the parts of it whose
correctness is hardest to see from the code and proves laws about them, for all inputs, all reachable
states and all interleavings.

`dafny verify dfyconfig.toml` checks everything. The modules, by component:

| component | modules |
|---|---|
| numbers and bytes | `Bytes` |
| x86-64 decoder, encoder, fetch loop | `X86`, `X86Decode`, `X86PrefixLaw`, `X86Encode`, `X86RoundTrip`, `X86Encodable`, `X86OpcodeMap`, `X86TableDecode`, `X86TableReads`, `X86DecodeLoop`, `X86EncodeBuffer` |
| interpreter: flags, interrupts, run cycle | `CpuFlags`, `CpuInterrupts`, `CpuDescriptors` |
| loader page tables | `Paging`, `PagingDemand`, `PageTableBuilder` |
| display and input seat | `UiQueue`, `UiSeat`, `UiProtocol`, `UiOutcomes` |
| terminal line discipline | `Tty`, `LineDiscipline`, `TtyEcho`, `TtyRecords`, `TtySignals`, `RawRead` |
| memory map from firmware to kernel | `MemoryRegions`, `MemoryMap`, `BootMap` |
| PE images | `PePlan` |
| file-system formats | `Directory`, `DirectoryLayout`, `FsGeometry` |

Code that updates things in place is modelled as classes and loops (`Decoder`, `Encoder`,
`PageTables`, `EventState`, `Ui`, `Discipline`, `RawReadTimer`, `RegionTable`, `Alu`, `Machine`, the
sorting and compaction of memory regions). Each of their methods is proved equal to a function on
values or to the stated property, and the laws are then proved about those functions.

## Main results

- **Encoder and decoder.** Whatever instruction the encoder accepts, decoding its bytes followed by
  anything at all gives that instruction back if and only if the instruction is canonical
  (`X86RoundTrip.RoundTrip`). `Canonical` is a condition on the operands alone. It excludes exactly
  what the encoder cannot express faithfully: high-byte registers, third operands, segment bytes that
  are no segment prefix, byte-immediate moves to registers 4 to 7 (which need a bare REX byte),
  non-64-bit PUSH and POP registers, byte operands of LEA and IMUL, 128-bit operands, relative
  displacements that do not fit, and a scale other than 1 where no SIB byte carries it. A scale with no
  index is lost only in that last case: with RSP or R12 as base, or with no base, the SIB byte keeps it.
  The encoder accepts exactly the instructions of `X86Encodable.Encodable`, a condition on mnemonic and
  operands, names the class of every other, and uses a number of bytes that `X86Encodable.LengthOf` states.
- **Opcode map.** `X86OpcodeMap` is a table of both opcode maps in the notation of the processor manuals:
  each opcode and /digit with its mnemonic, its operands in order and their widths. On every byte string
  the decoder gives what reading that table gives, errors included (`X86TableDecode.DecodeIsTable`). Hence
  for any row, legal prefixes, register or memory operand in any of its encodings and immediate, the bytes
  decode to that row's instruction (`X86TableReads.RowReads`).
- **Prefix law.** A decoded instruction has 1 to 15 bytes, each strict prefix of it is reported as
  truncated, and every other outcome is stable under extension. Hence the interpreter's byte-at-a-time
  fetch is a decode of the whole window that never reads a byte too many; its explicit check for a
  full buffer before the next read can never fire.
- **Page tables.** The in-place four-level tables refine a map from addresses to addresses and write
  permissions: each operation changes exactly the translations it should, seen through the two root
  slots that share one table on purpose. A mapping succeeds if and only if no 2 MiB page that maps
  elsewhere is in the way and the distinct tables its walks miss fit in the pool, both read off the pool
  before the call; a range that fails has exactly the pages before the first one that does not fit.
- **Input seat.** Over all interleavings of interrupts, sessions, readers, signals, wakes and timeouts:
  no lost wakeup, no event crosses sessions before the 2^64th acquisition (and from there on one can), the
  overflow flag is exact, no event is lost uncounted. A read delivers exactly when the owner has events
  queued and the copy works, and a failed copy never shortens the queue.
- **Terminal.** The echo of a sequence of keys, replayed on an abstract terminal, shows exactly the edited
  line with the cursor in place after each key if and only if each key is echoable when it is pressed, a
  condition on the key and the line before it; editing keys on printable text always are. Reads deliver
  committed lines in order and never across a record. Raw reads return at exactly the poll the MIN and
  TIME rules require. Each control character raises its signal at the next read, and no other key does.
- **Memory map.** Sorting, compaction, carving and clipping keep the kind of every address, the normal
  form they reach is the only one there is, and nothing becomes usable that was not.
- **Formats.** Directory encoding and parsing invert each other, and the byte strings that parse are
  described without either of them (`DirectoryLayout.ParseExact`); accepted extents and metadata never
  share a block; a loaded PE image agrees with address lookups whatever the order of the copies, and no
  address of it is both writable and executable.
- **Interpreter.** An interrupt is delivered exactly when a gate, a code segment and a stack described by
  their own descriptor bytes admit it, and goes to that gate's handler. Multi-word ADD/ADC and SUB/SBB compute big-integer sums and differences, compares
  mean what their conditions say, testing a value against itself is comparing it with zero, interrupt
  entry and IRETQ are inverse, `sti; hlt` halts first.

## Where code and description differ

Each of these properties fails on some input. A lemma shows the input and another says exactly when the
property holds.

- `kernel/src/tty.rs:206-222` and `kernel/src/tty.rs:239-252`: an end-of-file character commits a nonempty line
  without echoing anything, so the terminal keeps showing text that is no longer being edited
  (`TtyEcho.EofLeavesText`), and a signal whose kill echo leaves one or two bytes of room in the output
  queue sends its mark without the newline (`TtyEcho.SignalCutShort`). `TtyEcho.PressFollows` says of every
  key exactly when the display follows it.
- `kernel/src/tty.rs:433-438`: a change of ICANON without a flush while input is pending puts record lengths
  and queued bytes out of balance, and a raw drain in between leaves a record whose bytes are gone
  (`TtyRecords.DrainedBetweenModes`). `TtyRecords.ApplyKeeps` says that this change is the only operation that
  loses the balance.
- `kernel/src/ui.rs:90-97`: input epochs repeat after 2^64 - 1 sessions (`UiProtocol.EpochsRepeat`), so from 2^64
  acquisitions on there is a run that brings an old session's event into the queue
  (`UiProtocol.SessionsMeet`). `UiProtocol.IsolationExact` says that isolation by session holds in all runs
  that end in session k exactly for k below 2^64.
- `bootloader/uefi/src/paging.rs:107-114`: asking for a read-only page inside a 2 MiB window that already has
  that frame succeeds and leaves the page writable (`PageTableBuilder.PageTables.ReadOnlyInWindow`, for every
  page of the window). `PageTableBuilder.KernelRange` says that this is the only case in which the permission is
  not the one asked for.
- `bootloader/uefi/src/paging.rs:65-75`: a mapping of length zero at an unaligned address succeeds and maps one
  page (`PageTableBuilder.PageTables.EmptyRangeMapsPage`); it maps none exactly at an aligned address
  (`PageTableBuilder.EmptyRange`).
- `crates/xenith-x86/src/encode.rs:33-38`: in the release profile, where overflow checks are off, the shift of a
  16-byte immediate wraps and its eight bytes go out twice (`X86RoundTrip.WideMovShape`). The encoder accepts
  the instruction and the decoder never gives it back; `X86RoundTrip.RoundTrip` covers it as not canonical.

## Model

| member | source | states |
|---|---|---|
| X86PrefixLaw.DecodeLaw | crates/xenith-x86/src/decode.rs:25-40 | decoding a prefix of the input agrees with decoding the input, or the prefix is truncated |
| X86PrefixLaw.StrictPrefixTruncated | crates/xenith-x86/src/decode.rs:25-107 | a decoded instruction has 1 to 15 bytes and each strict prefix of it is truncated |
| X86PrefixLaw.ExtensionStable | crates/xenith-x86/src/decode.rs:25-107 | an instruction, or an error other than truncation, is the same after any extension |
| X86PrefixLaw.ReadPrefixesLaw | crates/xenith-x86/src/decode.rs:84-107 | the prefix loop obeys the same law at any offset |
| X86PrefixLaw.ModrmLaw | crates/xenith-x86/src/decode.rs:142-186 | ModRM, SIB and displacement reading obeys the law |
| X86PrefixLaw.PrimaryLaw | crates/xenith-x86/src/decode.rs:196-349 | the one-byte opcode map obeys the law |
| X86PrefixLaw.SecondaryLaw | crates/xenith-x86/src/decode.rs:583-758 | the two-byte opcode map obeys the law |
| X86RoundTrip.RoundTrip | crates/xenith-x86/src/encode.rs:61-520 | for every instruction that encodes: decoding the bytes plus any tail matches it iff it is canonical |
| X86RoundTrip.MovShortForm | crates/xenith-x86/src/encode.rs:145-175 | a register-immediate move reads back, except that byte registers 4 to 7 read as high-byte ones |
| X86RoundTrip.ByteMoveToSplIsLost | crates/xenith-x86/src/encode.rs:40-46 | the concrete move to SPL that decodes as a move to AH |
| X86RoundTrip.WideMovShape | crates/xenith-x86/src/encode.rs:33-38 | a 128-bit immediate move goes out as the 32-bit move with twelve bytes more behind it |
| X86RoundTrip.ModrmReads | crates/xenith-x86/src/encode.rs:462-520 | the decoder's ModRM reader inverts the encoder's, for every register and memory operand |
| X86RoundTrip.MemoryReads | crates/xenith-x86/src/encode.rs:474-520 | base, index, scale, displacement and RIP-relative forms read back |
| X86RoundTrip.FormPrefixFacts | crates/xenith-x86/src/encode.rs:417-460 | segment, operand-size and REX prefixes give back the operand width and the high register bits |
| X86RoundTrip.ArithmeticCase | crates/xenith-x86/src/encode.rs:252-333 | the round trip for the arithmetic group, both directions and immediates |
| X86RoundTrip.BranchForm | crates/xenith-x86/src/encode.rs:61-143 | jumps, calls and conditional jumps read back with the displacement wrapped to its size |
| X86Encodable.EncodeStops | crates/xenith-x86/src/encode.rs:61-520 | the encoder succeeds iff mnemonic, operand kinds, widths, scale, index and values are encodable, a condition that calls no emitter; otherwise it stops with the error of that class |
| X86Encodable.EncodeLength | crates/xenith-x86/src/encode.rs:61-520 | every accepted instruction takes exactly the stated number of bytes: prefixes, opcode, ModRM, SIB, displacement and immediate counted from the operands |
| X86TableDecode.DecodeIsTable | crates/xenith-x86/src/decode.rs:25-758 | on every input the decoder's instruction or error is the one the opcode table gives: opcode, /digit, mnemonic, operand order and widths over both maps |
| X86TableDecode.PrimaryIsTable | crates/xenith-x86/src/decode.rs:196-581 | the same for each of the 256 one-byte opcodes, at any offset and under any prefixes |
| X86TableDecode.SecondaryIsTable | crates/xenith-x86/src/decode.rs:583-758 | the same for each of the 256 two-byte opcodes |
| X86TableReads.PrefixesRead | crates/xenith-x86/src/decode.rs:84-107 | any legal run of lock, repeat, segment, operand-size, address-size and REX bytes is read as exactly those prefixes, the last of each kind deciding |
| X86TableReads.PlaceReads | crates/xenith-x86/src/decode.rs:121-186 | every encoding of a register or memory operand reads as that operand: all displacement widths, scales, absent bases and indexes, RIP-relative and 32-bit addresses |
| X86TableReads.RowReads | crates/xenith-x86/src/decode.rs:84-758 | prefixes, a table row's opcode, any register and memory operand and an immediate, with anything behind them, decode to that row's instruction and length |
| X86DecodeLoop.Decoder.Imm | crates/xenith-x86/src/decode.rs:62-72 | the byte loop of an immediate gives the little-endian value or the truncation error |
| X86DecodeLoop.Decoder.ReadAllPrefixes | crates/xenith-x86/src/decode.rs:84-107 | the in-place prefix loop computes the prefix function and leaves the cursor behind the prefixes |
| X86DecodeLoop.Decoder.Run | crates/xenith-x86/src/decode.rs:25-40 | the decoder object returns the decode function of its bytes, which is the opcode table's reading of them by X86TableDecode.DecodeIsTable |
| X86DecodeLoop.FetchInstruction | emu/xenith-emu/src/cpu.rs:263-300 | byte-at-a-time fetching equals decoding the readable window, reads exactly the instruction's bytes, and faults only at a byte it needs |
| X86DecodeLoop.FetchStops | emu/xenith-emu/src/cpu.rs:285-296 | the first prefix that is not truncated already decides the window |
| X86EncodeBuffer.EncodeInto | crates/xenith-x86/src/encode.rs:12-16 | succeeds iff the instruction is encodable and the buffer has room for its stated length, with the bytes in place, the rest untouched and the decoder's answer on the buffer; otherwise the error of its class, or a full buffer |
| X86EncodeBuffer.Encoder.Write | crates/xenith-x86/src/encode.rs:24-31 | bytes go in one after another up to the first that does not fit |
| X86EncodeBuffer.ImmediateBytes | crates/xenith-x86/src/encode.rs:33-38 | the shifting loop emits the little-endian bytes of the value at its width, and the eight bytes twice at 128 bits |
| CpuFlags.Alu.AddFlags | emu/xenith-emu/src/cpu.rs:1124-1146 | result and flags of an addition with carry-in, from the 64-bit adder and masks |
| CpuFlags.Alu.SubFlags | emu/xenith-emu/src/cpu.rs:1148-1164 | result and flags of a subtraction with borrow-in |
| CpuFlags.Alu.Binary | emu/xenith-emu/src/cpu.rs:718-761 | all nine instructions on values of any width: the source extended by its sign, which adder with which carry, the logical flags, and that compare and test do not write |
| CpuFlags.ExtendedExact | emu/xenith-emu/src/cpu.rs:718-733 | a narrower source keeps its signed value, a wider one is cut |
| CpuFlags.BitwiseBits | emu/xenith-emu/src/cpu.rs:740-754 | each bit of AND, OR, XOR and TEST is that operation on the two bits at its place |
| CpuFlags.LogicalBits | emu/xenith-emu/src/cpu.rs:740-754 | AND and TEST are the conjunction, OR the disjunction and XOR the difference of the bits at each place |
| CpuFlags.TestIsCompareWithZero | emu/xenith-emu/src/cpu.rs:738-744 | TEST of a value with itself leaves the result and all flags of CMP with zero |
| CpuFlags.SumExact | emu/xenith-emu/src/cpu.rs:1124-1146 | result plus carry is the true sum; OF iff the signed sum does not fit |
| CpuFlags.DifferenceExact | emu/xenith-emu/src/cpu.rs:1148-1164 | result minus borrow is the true difference; OF iff the signed difference does not fit |
| CpuFlags.CompareConditions | emu/xenith-emu/src/cpu.rs:1185-1209 | after CMP all ten ordering conditions are the integer comparisons, signed and unsigned |
| CpuFlags.ResultConditions | emu/xenith-emu/src/cpu.rs:1166-1209 | after each of the nine operations sign, parity and zero conditions and their negations say whether the result is negative, has an even number of ones in its low byte, or is zero; logical operations clear carry, overflow and auxiliary carry |
| CpuFlags.OverflowConditions | emu/xenith-emu/src/cpu.rs:1124-1193 | the overflow conditions say whether the signed sum or difference fits, carry-in included |
| CpuFlags.AuxiliaryExact | emu/xenith-emu/src/cpu.rs:1124-1164 | the auxiliary flag is the carry or borrow out of the low four bits |
| CpuFlags.MultiWordAdd | emu/xenith-emu/src/cpu.rs:734-740 | ADD then ADC over any number of limbs is big-integer addition with CF on top |
| CpuFlags.MultiWordSub | emu/xenith-emu/src/cpu.rs:734-740 | SUB then SBB over any number of limbs is big-integer subtraction, CF iff it goes below zero |
| CpuInterrupts.Machine.DeliverInterrupt | emu/xenith-emu/src/cpu.rs:1393-1456 | delivery on the machine, whose outcome CpuDescriptors.DeliversTo and DeliverExact state from descriptor bytes; a failed one leaves processor state and memory unchanged |
| CpuInterrupts.Machine.ReturnFromInterrupt | emu/xenith-emu/src/cpu.rs:1651-1665 | IRETQ on the machine, with the fault of the first pop that fails and the stack pointer the pops before it leave |
| CpuInterrupts.Machine.RunCycle | emu/xenith-emu/src/cpu.rs:235-300 | one cycle: shadow, delivery, idling and execution in the source's order; idling and a failed delivery change nothing, STI, CLI and HLT change what they name and RIP, any other or faulting instruction leaves the state and memory it left |
| CpuInterrupts.DeliverThenReturn | emu/xenith-emu/src/cpu.rs:1393-1665 | for same-stack, RSP0 and IST entries, IRETQ on an untouched frame restores RIP, CS, SS, RSP and RFLAGS with its fixed bit |
| CpuInterrupts.DeliveredStack | emu/xenith-emu/src/cpu.rs:1411-1456 | the frame is aligned, inside memory, and nothing else in memory changes |
| CpuDescriptors.DeliversTo | emu/xenith-emu/src/cpu.rs:1393-1649 | for tables that hold the bytes of a gate, a code segment and, where a stack is taken from it, a task state: RIP is the handler, CS the selector with the segment's level, IF cleared iff the gate is an interrupt gate, and the frame lies 40 below the aligned IST, RSP0 or current stack |
| CpuDescriptors.DeliverExact | emu/xenith-emu/src/cpu.rs:1393-1649 | delivery succeeds iff some gate, code segment and stack admit it |
| CpuDescriptors.GateReads | emu/xenith-emu/src/cpu.rs:1458-1527 | the bytes of a gate built from handler, selector, IST, level and type are read as that gate |
| CpuDescriptors.GateFound | emu/xenith-emu/src/cpu.rs:1458-1527 | every gate that is accepted has the bytes of one built that way |
| CpuDescriptors.CodeReads | emu/xenith-emu/src/cpu.rs:1529-1569 | the bytes of a 64-bit code segment give its privilege level |
| CpuDescriptors.TaskReads | emu/xenith-emu/src/cpu.rs:1571-1649 | the bytes of a task-state descriptor give its base and limit, and the slot its stack pointer |
| CpuDescriptors.TaskFound | emu/xenith-emu/src/cpu.rs:1571-1649 | every stack pointer that is accepted lies in a task state built that way |
| CpuDescriptors.GateRefused | emu/xenith-emu/src/cpu.rs:1458-1527 | without a usable gate the fault names the vector, or is a memory fault iff the entry is inside the table and outside memory |
| CpuDescriptors.CodeRefused | emu/xenith-emu/src/cpu.rs:1529-1569 | without a 64-bit code segment the same, by the global table |
| CpuDescriptors.LevelRefused | emu/xenith-emu/src/cpu.rs:1395-1417 | a less privileged handler, or a change to level 1 or 2 without an interrupt stack, is refused with the vector |
| CpuDescriptors.StackRefused | emu/xenith-emu/src/cpu.rs:1411-1440 | a stack the task state does not give, one too low for the frame, and one outside memory, with their faults |
| CpuDescriptors.IretqTakes | emu/xenith-emu/src/cpu.rs:1651-1665 | IRETQ takes RIP, CS, RFLAGS, RSP and SS from the five words at the stack pointer, whatever they are |
| CpuDescriptors.IretqStops | emu/xenith-emu/src/cpu.rs:1651-1665 | the first word it cannot read stops it with a memory fault and the words before it taken |
| CpuInterrupts.ShadowMeansSti | emu/xenith-emu/src/cpu.rs:316-327 | in every run the shadow is up exactly in the cycle after an executed STI |
| CpuInterrupts.NoDeliveryAfterSti | emu/xenith-emu/src/cpu.rs:235-246 | no interrupt is delivered in the cycle right after STI |
| CpuInterrupts.CycleExact | emu/xenith-emu/src/cpu.rs:235-327 | in every run, which of delivery, failed delivery, idling and execution each cycle does, by interrupt flag, preceding STI, pending vector and halt, and the flag and halt it leaves |
| CpuInterrupts.OtherFlagsKept | emu/xenith-emu/src/cpu.rs:316-327 | setting the fixed bit, and setting or clearing the interrupt flag, changes no other bit of RFLAGS |
| CpuInterrupts.StiHltHaltsFirst | emu/xenith-emu/src/cpu.rs:316-327 | `sti; hlt` halts first and is woken by the next pending interrupt |
| CpuInterrupts.HaltedUntilDelivery | emu/xenith-emu/src/cpu.rs:248-251 | a halted processor executes nothing until an interrupt is delivered |
| CpuInterrupts.DeliveryNeedsEnable | emu/xenith-emu/src/cpu.rs:236-246 | delivery only with IF set, a vector pending and no shadow |
| PageTableBuilder.PageTables.Create | bootloader/uefi/src/paging.rs:20-31 | refuses exactly misaligned or small pools, else zeroed memory with one page in use, which maps nothing |
| PageTableBuilder.PageTables.AllocateTable | bootloader/uefi/src/paging.rs:130-137 | pages are handed out once each, in order, never past the capacity |
| PageTableBuilder.PageTables.Map4K | bootloader/uefi/src/paging.rs:91-128 | succeeds iff no 2 MiB page with another frame is in the way and the missing tables fit; then exactly those tables are added and exactly one page's translation changes, or a 2 MiB page with that frame stays; on failure no translation changes, and the pool is full or as it was |
| PageTableBuilder.PageTables.Descend | bootloader/uefi/src/paging.rs:105-121 | one level of the walk: follow, create, or stop at a 2 MiB page or a full pool, changing no translation and adding at most the one missing table |
| PageTableBuilder.PageTables.MapKernel | bootloader/uefi/src/paging.rs:53-78 | layout errors iff offsets differ or the end overflows; otherwise success iff nothing is in the way of any page and the range's distinct missing tables fit, with the range's pages and no others remapped in order; a failure names the first page that does not fit and leaves the pages before it mapped |
| PageTableBuilder.PageTables.MapTransitionWindows | bootloader/uefi/src/paging.rs:38-51 | succeeds iff five pages are left; then both windows are exactly in place and other slots keep their map; otherwise the whole gibibytes that fit are in place |
| PageTableBuilder.PageTables.MapHhdmPhysical | bootloader/uefi/src/paging.rs:80-89 | maps physical memory at the higher-half offset, with both overflow errors, the success condition and the partial map of a failure |
| PageTableBuilder.PageTables.ReadOnlyInWindow | bootloader/uefi/src/paging.rs:107-114 | behind the windows, mapping any page of the first 4 GiB onto itself read-only returns success and leaves it writable |
| PageTableBuilder.PageTables.EmptyRangeMapsPage | bootloader/uefi/src/paging.rs:65-78 | mapping no bytes at an unaligned address returns success and maps the page around it |
| PageTableBuilder.KernelRange | bootloader/uefi/src/paging.rs:53-78 | every byte a of the range goes to p + (a - v), with the permission asked for iff no 2 MiB page with the other one was there; addresses on other pages keep their translation, modulo the shared slot |
| PageTableBuilder.EmptyRange | bootloader/uefi/src/paging.rs:65-75 | a range of no bytes takes no page iff it starts on a page boundary, and never more than one |
| PageTableBuilder.RangeExact | bootloader/uefi/src/paging.rs:72-77 | the translation of every canonical address after a range of pages is mapped |
| PageTableBuilder.WindowsExact | bootloader/uefi/src/paging.rs:38-51 | the first 4 GiB, directly and at the higher-half offset, go to the physical address, writable; the rest of the two slots maps nothing |
| PageTableBuilder.SamePageAlias | bootloader/uefi/src/paging.rs:39-41 | which addresses share a leaf entry: the same page, or its twin through slots 0 and 256 |
| Paging.LeafWrite | bootloader/uefi/src/paging.rs:122-127 | writing a leaf changes the translation and permission of its page only and keeps the table structure |
| Paging.LargeWrite | bootloader/uefi/src/paging.rs:45-48 | writing a 2 MiB entry changes the translation of its range only |
| Paging.LinkFresh | bootloader/uefi/src/paging.rs:116-120 | linking a fresh table changes no translation and lets the walk go on |
| Paging.WindowRootsMap | bootloader/uefi/src/paging.rs:39-41 | the shared table empties slots 0 and 256 and leaves all other slots alone |
| PagingDemand.LinkReach | bootloader/uefi/src/paging.rs:116-120 | linking a table lets exactly the walks along its path get one step further |
| PagingDemand.LeafGrows | bootloader/uefi/src/paging.rs:122-127 | writing a leaf adds no table to any walk and touches no 2 MiB page |
| PagingDemand.TablesAfter | bootloader/uefi/src/paging.rs:104-121 | after tables were added, a page misses what it missed before without them |
| PagingDemand.NextPage | bootloader/uefi/src/paging.rs:72-77 | whether the next page of a range fits the grown pool, decided by the pool before the range |
| PagingDemand.MappableShorter | bootloader/uefi/src/paging.rs:72-77 | a range that can be mapped can be mapped up to any of its pages |
| UiQueue.EventState.Push | kernel/src/ui.rs:131-140 | numbers the event, drops the oldest when full, counts and marks the drop |
| UiQueue.EventState.Stage | kernel/src/ui.rs:142-154 | copies the oldest events, flags the first after drops, removes nothing |
| UiQueue.EventState.Commit | kernel/src/ui.rs:156-164 | removes the delivered events and clears the mark |
| UiQueue.OverflowFlagExact | kernel/src/ui.rs:131-164 | the first event of a read is flagged iff events were dropped since the last delivery and is numbered exactly that many later; the others follow on |
| UiQueue.FlagMeansGap | kernel/src/ui.rs:131-164 | the flag is set iff the number differs from the next one due |
| UiSeat.Ui.NextInputEpoch | kernel/src/ui.rs:90-97 | the counter loop gives the next nonzero value |
| UiSeat.Ui.AcquireSection | kernel/src/ui.rs:211-222 | what acquiring changes under the event lock |
| UiSeat.Ui.ReleaseSection | kernel/src/ui.rs:248-256 | what releasing changes and whom it wakes |
| UiSeat.Ui.RouteEvent | kernel/src/ui.rs:522-544 | user, kernel or stale routing by epoch, with the registration taken on a push |
| UiSeat.Ui.NotifySignal | kernel/src/ui.rs:553-565 | the owner's registration is taken, anyone else's is not |
| UiSeat.Ui.ArmExternalWait | kernel/src/ui.rs:585-599 | registers only for the owner with nothing to read, and not over another task |
| UiSeat.Ui.ReadPass | kernel/src/ui.rs:647-694 | one pass of the read loop with each of its exits; UiOutcomes.ReadDelivers and EmptyRead say when each is taken |
| UiProtocol.StepInv | kernel/src/ui.rs:196-700 | every step of every interleaving keeps the invariant |
| UiProtocol.NoLostWakeup | kernel/src/ui.rs:614-694 | in every reachable state a waiter means an owned, empty queue; a parked reader is registered or being woken; a signalled one is being woken or about to be notified |
| UiProtocol.WakesEveryReader | kernel/src/ui.rs:522-571 | every push, release and signal of the owner leaves each parked reader with a wake under way |
| UiProtocol.NotOwnerNotWaiting | kernel/src/ui.rs:553-556 | the early return of a notification for another process loses nothing |
| UiProtocol.EpochIsolation | kernel/src/ui.rs:512-544 | queued events carry the current epoch, so below 2^64 acquisitions they were sampled in the current session; console queues stay empty while owned, owner and epoch agree |
| UiProtocol.EpochsRepeat | kernel/src/ui.rs:90-97 | two sessions have the same epoch iff their numbers agree modulo 2^64 - 1 |
| UiProtocol.SessionsMeet | kernel/src/ui.rs:522-544 | for every k from 2^64 on, a run in which session k queues an event sampled in an earlier session |
| UiProtocol.IsolationExact | kernel/src/ui.rs:90-97 | isolation by session holds in all runs that end in session k iff k is below 2^64 |
| UiProtocol.ReadsAreExact | kernel/src/ui.rs:653-670 | in any run a read hands out the oldest events in order with an exact overflow flag: set iff the number is not the one after the last delivered, while fewer than 2^64 - 1 events in a row were dropped |
| UiOutcomes.ReadDelivers | kernel/src/ui.rs:647-670 | in every run a read is refused iff the process is not the owner, delivers the first events that fit iff there are any and the copy works, and faults iff it does not; only a delivery shortens the queue |
| UiOutcomes.EmptyRead | kernel/src/ui.rs:672-694 | on an empty queue an immediate read returns nothing, a signalled one is interrupted, an expired one returns nothing, and any other parks and is registered |
| UiOutcomes.RouteOutcome | kernel/src/ui.rs:512-544 | in every run a sampled event goes to the end of the session's queue, to its own console queue, or nowhere, by its epoch, and a full queue drops its oldest |
| UiOutcomes.ArmOutcome | kernel/src/ui.rs:585-599 | when arming answers hangup, ready, busy and armed, and that only the last changes anything |
| UiOutcomes.SessionOutcome | kernel/src/ui.rs:196-262 | acquiring and releasing leave the new owner, or none, empty queues, and the released waiter being woken |
| UiOutcomes.NotifyOutcome | kernel/src/ui.rs:553-571 | a signal takes the owner's registration along and nobody else's |
| UiProtocol.FaultChangesNothing | kernel/src/ui.rs:664-667 | a read whose copy faults leaves the whole state unchanged |
| UiProtocol.EventsConserved | kernel/src/ui.rs:131-164 | pushed events are delivered, queued or counted as dropped, and numbered consecutively |
| LineDiscipline.Discipline.InsertByte | kernel/src/tty.rs:101-121 | in-place insertion with its echo |
| LineDiscipline.Discipline.EraseBeforeCursor | kernel/src/tty.rs:123-141 | in-place erasure with its echo |
| LineDiscipline.Discipline.DeleteAtCursor | kernel/src/tty.rs:143-159 | in-place deletion with its echo |
| LineDiscipline.Discipline.KillLine | kernel/src/tty.rs:161-179 | killing the line with its echo |
| LineDiscipline.Discipline.CommitLine | kernel/src/tty.rs:181-204 | commits the line as one record if both queues have room, else rings |
| LineDiscipline.Discipline.CommitEof | kernel/src/tty.rs:206-222 | commits the line, or an end-of-file record when it is empty |
| LineDiscipline.Discipline.FeedByte | kernel/src/tty.rs:224-274 | mapping, signals, raw input and canonical control characters in the source's order; TtySignals states which byte does what |
| TtySignals.SignalRaised | kernel/src/tty.rs:224-255 | with ISIG the interrupt, quit and suspend characters, in that precedence and after CR mapping, drop the line, show ^C, ^\ or ^Z, and make the next read return their signal, once |
| TtySignals.SignalKept | kernel/src/tty.rs:224-325 | every other byte and every editing key leaves a pending signal alone and raises none |
| TtySignals.CarriageReturn | kernel/src/tty.rs:225-228 | with ICRNL a carriage return does what a newline does; without it, it is a byte of its own |
| TtySignals.RawInput | kernel/src/tty.rs:256-261 | outside canonical mode a byte is queued and echoed as it is, and dropped when the queue is full |
| TtySignals.Silent | kernel/src/tty.rs:81-274 | without ECHO no key shows anything but the bell and, with ECHONL, the newline |
| TtySignals.EchoFlags | kernel/src/tty.rs:123-179 | with ECHO, erasing shows nothing without ECHOE and killing nothing without ECHOK |
| LineDiscipline.Discipline.PressKey | kernel/src/tty.rs:280-309 | arrows, Home, End, Delete and bytes, in place |
| LineDiscipline.Discipline.FeedEvent | kernel/src/tty.rs:276-325 | a keyboard event: releases do nothing, an editing key acts where its guard allows, everything else feeds the UTF-8 bytes of its character with control applied |
| TtySignals.EventOutcome | kernel/src/tty.rs:276-325 | releasing a key does nothing, an editing key edits where it can, any other key types its character |
| Tty.Utf8Exact | kernel/src/tty.rs:311-320 | every character is typed as its shortest UTF-8 sequence under section 3 of RFC 3629 |
| Tty.ControlAscii | kernel/src/tty.rs:311-320 | with control held an ASCII character types its low five bits, otherwise itself |
| Tty.ControlLetters | kernel/src/tty.rs:311-320 | control and a letter in either case type the control character of that letter |
| Tty.WideCharacters | kernel/src/tty.rs:311-320 | no byte of a character outside ASCII can be taken for an ASCII control character |
| LineDiscipline.Discipline.TryRead | kernel/src/tty.rs:327-361 | a read, for every state in which the queue holds the bytes it pops, and the caller's buffer |
| TtySignals.RawTryRead | kernel/src/tty.rs:327-361 | a raw read returns a pending signal, waits while it has fewer bytes than MIN and the buffer ask for, and otherwise takes the oldest that fit |
| LineDiscipline.Discipline.ReadOnce | kernel/src/tty.rs:392-427 | a reader's poll: records in canonical mode, else a pending signal, the nonblocking drain, or the drain at the timer's decision; what it does to the timer |
| Tty.BalancedCanPop | kernel/src/tty.rs:341-348 | with balanced records no pop of any read fails |
| LineDiscipline.Discipline.SetAttributes | kernel/src/tty.rs:433-438 | new attributes, with the input flushed on request |
| TtySignals.Flushed | kernel/src/tty.rs:363-438 | after a flush nothing is left to read or edit, and the next read blocks |
| TtyEcho.EchoShowsLine | kernel/src/tty.rs:101-325 | for every sequence of keys: the replayed echo shows exactly the edited line, cursor included, after each key iff each key is echoable when pressed |
| TtyEcho.EditingAlwaysShown | kernel/src/tty.rs:101-325 | sequences of printable bytes, erases, kills, ends of line and cursor keys are always shown |
| TtyEcho.PressEdits | kernel/src/tty.rs:101-325 | every key changes the line as an editor of the text left and right of the cursor would |
| TtyEcho.PressFollows | kernel/src/tty.rs:224-325 | the display follows a key of any kind iff the key is echoable on the line before it |
| TtyEcho.EofLeavesText | kernel/src/tty.rs:206-222 | an end-of-file key on the line "a" commits it and leaves its text on the screen |
| TtyEcho.SignalCutShort | kernel/src/tty.rs:239-252 | a signal on a full line with the cursor one or two in is not followed |
| TtyEcho.KillEchoBound | kernel/src/tty.rs:161-179 | a kill emits at most 4096 bytes, and exactly 4096 iff the line is full and the cursor at 0; every other editing echo is shorter |
| TtyEcho.ReplayText | kernel/src/tty.rs:114-119 | printable text overwrites the cells from the cursor on |
| TtyRecords.ApplyKeeps | kernel/src/tty.rs:181-438 | an operation keeps record lengths plus active remainder equal to the queued bytes iff it does not change ICANON over pending input without a flush; raw mode has no records |
| TtyRecords.DrainedBetweenModes | kernel/src/tty.rs:341-348 | pending canonical input, drained in raw mode between two such changes, leaves a record no read can pop |
| TtyRecords.PressPending | kernel/src/tty.rs:181-222 | a key changes the pending input only by the line it commits |
| TtyRecords.ReadPending | kernel/src/tty.rs:327-361 | a canonical read is a read from the queue of lines and never spans two of them |
| TtyRecords.EmptyReadMeansEof | kernel/src/tty.rs:331-341 | a read into a nonempty buffer returns nothing iff an end-of-file record is next |
| TtyRecords.DeliversCommitted | kernel/src/tty.rs:181-427 | over any run without a flush the bytes handed out by read_once are the committed lines, or the raw bytes, in order and once, whatever the timer decides |
| RawRead.RawReadTimer.Decide | kernel/src/tty.rs:493-535 | the polled decision and the timer it leaves |
| RawRead.DecidesWhenDue | kernel/src/tty.rs:493-535 | as long as nothing was due, Read is returned exactly when one of the four MIN and TIME cases requires it, up to the last instant of the clock |
| RawRead.FirstReadIsFirstDue | kernel/src/tty.rs:493-535 | the first Read comes at the first poll that is due |
| RawRead.NoExpiryWithoutByte | kernel/src/tty.rs:522-535 | with MIN and TIME positive the timer does not start before a byte is seen |
| MemoryRegions.RegionTable.AppendRegion | bootloader/common/src/memory.rs:31-61 | appends exactly the bytes of the interval to the flattened map, taking a new slot iff it does not continue the last region; failing changes nothing |
| MemoryRegions.RegionTable.AppendRegionWithReservations | bootloader/common/src/memory.rs:63-113 | appends exactly the region's bytes, each with its reservation's kind or usable; a failure leaves the bytes up to some point, carved by the reservations seen, and means an overflow, unsorted reservations, or a full table whose last region the next byte does not continue |
| MemoryRegions.KindForExact | bootloader/common/src/memory.rs:79-104 | with sorted reservations a byte's kind is that of the one reservation around it |
| MemoryRegions.FlatKinds | bootloader/common/src/memory.rs:31-61 | the flattened map and the address-to-kind function tell the same |
| MemoryMap.SortRegions | bootloader/uefi/src/lib.rs:147-155 | the in-place insertion sort orders by base and keeps every address's kinds |
| MemoryMap.CompactRegions | bootloader/uefi/src/lib.rs:157-189 | the in-place compaction reaches normal form, or finds an address with two kinds |
| MemoryMap.NormalizeMemoryRegions | bootloader/uefi/src/lib.rs:137-190 | normal form with the same kinds; overflow errors iff a region overflows; otherwise fails iff two regions overlap |
| MemoryMap.DisjointKinds | bootloader/uefi/src/lib.rs:171-176 | regions are disjoint iff no address has two kinds |
| MemoryMap.NormalFormUnique | bootloader/uefi/src/lib.rs:131-136 | two normal maps with the same kinds are the same list of regions |
| BootMap.CopyMemoryMap | kernel/src/boot.rs:445-510 | accepts iff every entry is fine and one starts below 4 GiB; otherwise names the first wrong entry and its fault |
| BootMap.AcceptedApart | kernel/src/boot.rs:470-487 | the regions of an accepted map lie one behind the other and share no address |
| BootMap.ClippedKinds | kernel/src/boot.rs:489-501 | below 4 GiB every address keeps its kind, renamed; above it has none |
| BootMap.KindsKeepPurpose | kernel/src/boot.rs:785-797 | each of the loader's eight kinds becomes the kernel's kind of the same purpose, with the framebuffer reserved; no other number is accepted, and only usable memory becomes usable |
| BootMap.PurposeKept | kernel/src/boot.rs:445-510 | in an accepted map every low address keeps its purpose, and is usable iff the loader said so |
| BootMap.NormalAccepted | kernel/src/boot.rs:470-487 | a normalised map is never refused as empty, overlapping, overflowing or of unknown kind |
| BootMap.LoaderMapKept | kernel/src/boot.rs:445-510 | from the loader's input to the kernel's table each low address keeps its kind |
| PePlan.ValidateSection | crates/xenith-pe/src/image.rs:568-662 | accepts exactly the sections that are aligned, inside file and image, behind the headers and not both writable and executable, and each error names what is wrong with the section |
| PePlan.ValidateSectionOverlaps | crates/xenith-pe/src/image.rs:664-686 | accepts iff no two sections meet in memory or in the file, else names two that do |
| PePlan.RangesMeet | crates/xenith-pe/src/image.rs:664-686 | ranges overlap iff an address lies in both |
| PePlan.RequiredExact | crates/xenith-pe/src/image.rs:156-188 | the image size required is the furthest end of headers and sections |
| PePlan.EntryExecutable | crates/xenith-pe/src/image.rs:688-708 | the entry point is zero or lies in the mapped range of an executable section |
| PePlan.ParseSections | crates/xenith-pe/src/image.rs:156-188 | lets through exactly the accepted images whose declared size is the end of their last range, with each section's size filled in; a header that is writable and executable only with no bytes at all |
| PePlan.PlanFromImage | crates/xenith-pe/src/plan.rs:90-127 | the plan's header load, and for each section in order its address, size, file range if it has one, and its read, write and execute rights |
| PePlan.CopiesFit | crates/xenith-pe/src/plan.rs:90-127 | every copy reads inside the file and writes inside its own range |
| PePlan.NoWriteExecute | crates/xenith-pe/src/image.rs:656-686 | every address of a loaded image is in at most one section and not both writable and executable there |
| PePlan.SectionRights | crates/xenith-pe/src/plan.rs:90-127 | every address of a section is loaded by that section's entry alone, with the section's rights |
| PePlan.LoadedImage | crates/xenith-pe/src/plan.rs:70-75 | zeroing and copying in any order gives each address its resolved byte, or zero |
| PePlan.ResolvedRange | crates/xenith-pe/src/image.rs:240-276 | memory behind any range that resolves is the resolved slice of the file |
| Directory.EncodeDirectory | crates/xenith-fs-format/src/directory.rs:83-116 | the growing and patching loop gives the encode function, whose bytes DirectoryLayout.EncodeImage describes |
| Directory.ParseDirectory | crates/xenith-fs-format/src/directory.rs:31-81 | the offset loop gives the parse function, which DirectoryLayout.ParseExact characterises |
| Directory.EncodeResult | crates/xenith-fs-format/src/directory.rs:83-116 | encoding succeeds iff counts, inodes, names, uniqueness and total size allow it |
| Directory.EncodeParse | crates/xenith-fs-format/src/directory.rs:31-116 | whatever encodes parses back to the same records |
| Directory.ParseEncode | crates/xenith-fs-format/src/directory.rs:31-116 | whatever parses has unique valid names, re-encodes to no more bytes, and parses to the same records |
| DirectoryLayout.ParseExact | crates/xenith-fs-format/src/directory.rs:31-81 | a byte string parses to these records iff it is one record after the other with inode, declared length, name length, kind code, checksum over the cleared field and name in their places, and each record may follow those before it |
| DirectoryLayout.OneExact | crates/xenith-fs-format/src/directory.rs:37-80 | the same for one record at any offset |
| DirectoryLayout.NameExact | crates/xenith-fs-format/src/directory.rs:118-129 | valid names are the texts of 1 to 255 bytes without slash and NUL, except the two dot names |
| DirectoryLayout.EncodeImage | crates/xenith-fs-format/src/directory.rs:83-116 | the encoder writes each record in that layout at the sum of the lengths before it, with zero padding to eight bytes |
| DirectoryLayout.EncodeFails | crates/xenith-fs-format/src/directory.rs:83-116 | a failing encoder names what is wrong with the first record that cannot be stored |
| DirectoryLayout.ParseFails | crates/xenith-fs-format/src/directory.rs:31-81 | a failing parse has read the image of allowed records and names what is wrong with the next |
| FsGeometry.Validate | crates/xenith-fs-format/src/superblock.rs:127-166 | accepts exactly the supported, consistent geometries |
| FsGeometry.AcceptedExact | crates/xenith-fs-format/src/superblock.rs:127-183 | accepted geometries by their blocks: known features, an existing root inode, room for bitmap and journal, data on the disk, the four kinds of metadata apart and in front of it, and a bitmap bit for every block |
| FsGeometry.InodeTableHolds | crates/xenith-fs-format/src/superblock.rs:168-176 | the blocks of the inode table are exactly those that hold an inode |
| FsGeometry.SaturationHarmless | crates/xenith-fs-format/src/superblock.rs:158-183 | the bitmap-capacity check makes every saturated range end the true one |
| FsGeometry.MetadataApart | crates/xenith-fs-format/src/superblock.rs:140-157 | no block belongs to two kinds of metadata and none is a data block |
| FsGeometry.ValidateExtents | crates/xenith-fs-format/src/extent.rs:41-74 | accepts iff each extent is fine and none overlap on disk; else the first fault |
| FsGeometry.FineExact | crates/xenith-fs-format/src/extent.rs:41-66 | an extent passes iff it has blocks, a known flag, lies behind the last one, and inside the data area |
| FsGeometry.ApartExact | crates/xenith-fs-format/src/extent.rs:66-73 | extents are apart iff no block belongs to both |
| FsGeometry.MappedBlockInjective | crates/xenith-fs-format/src/extent.rs:76-78 | different logical blocks are on different disk blocks |
| FsGeometry.MappedBlockExact | crates/xenith-fs-format/src/extent.rs:22-78 | a logical block maps through the only extent around it |
| FsGeometry.MappedBlockIsolated | crates/xenith-fs-format/src/inode.rs:124-142 | file data is never on a superblock, inode-table, bitmap or journal block |

## Left out

- The opcode decoders (`primary`, `secondary` and the groups) are functions from a cursor to a value and a new cursor; only the cursor primitives and loops are methods. The encoder's emitters are functions to a byte list with a stopping error, which `Encoder.Write` then puts in the buffer in place.
- The cap of error offsets at 255 in the decoder; an offset never gets there.
- Page-table bits other than present, writable and page size.
- Page-table memory above 52 physical bits: a pool there is created, but nothing is said about its links, which the address mask cuts.
- Memory ordering of atomics: each section under a lock and each atomic load is one step.
- Several reader tasks of one process, the parking of external waits outside the input seat, framebuffer copies and display notification.
- The checks at the head of `read_events` (capacity, owner, prepared destination) before its loop.
- Echo while earlier output is still queued: the console drains it after every event.
- The keyboard driver's translation of scan codes to events.
- `commit_line` is modelled at its one call, with the newline included.
- Shifts, multiplication, division, bit tests and string operations of the interpreter, its cycle counter, and paging and partial writes of its bus, which is a flat byte memory here.
- CpuInterrupts.Cycle: an instruction other than STI, HLT and CLI, or one that faults, is any change of the interrupt flag, because the cycle depends on nothing else of it; `Machine.RunCycle` takes the state and memory such a step leaves as given.
- PE header fields other than those the section checks use, imports, relocations and data directories; alignments are positive numbers and masking is taken as a remainder, which for powers of two is the same.
- CRC-32 is an arbitrary function and UTF-8 validity an arbitrary predicate.
- Byte layouts of superblock, inode and journal records; the inode's extents are taken as parsed.
- X86EncodeBuffer.ImmediateBytes: models the release profile; a development build, which checks shifts, panics on a 16-byte immediate instead.
- Header validation, modules, command line and framebuffer intake of the kernel's boot code, since they only add single-record checks.
