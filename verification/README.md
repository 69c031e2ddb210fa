# Verification of the URVirt stub

URVirt runs a RISC-V supervisor-mode kernel as an ordinary Linux process. The guest executes
natively; whenever it does something a user process may not do, Linux sends a signal, and the
*stub* (`src/urvirt-stub`) emulates the privileged part: CSR instructions, traps, `sret`, the timer,
a block device, and Sv39 paging, for which it uses the process's own `mmap` table as a software TLB.

This project models the stub in Dafny and proves that

- the signal handler, in the form the C code has it (CSRs as 64-bit words, saved registers with pc in
  slot 0, bit-field macros, in-place updates), refines a structured supervisor hart taken from the
  RISC-V manuals;
- over whole runs the host mappings are a sound TLB: every access outside the stub that does not fault reaches exactly
  the byte that the Sv39 algorithm with R, W and X permissions yields, for the page tables as they were
  in some world of the run since the last flush (so never older than an executed sfence.vma) and in the
  current address space and privilege mode, and as they are now if they have not changed since; while the
  tables behind a user address are unchanged a granted fault is served at once, makes progress and happens at
  most once per flush;
- against the whole algorithm of the standard, with U, SUM, MXR, A, D and reserved bits, it is proved
  exactly when what the emulator grants, reaches or reports is the standard's;
- the stub's own pages never change, no timer interrupt is lost, no deliverable interrupt is left
  pending when the guest resumes, and each signal enters at most one trap;
- traps nested to any depth unwind; the block device is a disk; the seccomp filter decides its address
  range exactly; printf's truncation is right for every count, what a format prints is told from its
  requests and arguments alone, and when width, precision and sign are met is known exactly.

Where the code falls short of the standard or of the obvious claim, the exact condition is proved
instead, and most of these come with a concrete input that shows the difference.

## Files

| file | contents |
|---|---|
| `Words.dfy`, `Division.dfy` | 64-bit words, bitwise operations, nonlinear arithmetic facts |
| `Memory.dfy`, `Bits.dfy` | the RAM file; the fields and constants of riscv-bits.h |
| `Isa.dfy`, `Sv39.dfy` | the supervisor hart and address translation as the manuals describe them |
| `HostVm.dfy` | Linux page mappings with mmap, munmap, pread and pwrite |
| `Machine.dfy` | the emulated machine: one pure step for each signal |
| `AccessKinds.dfy` | the stub's guess at the kind of a faulting access, against the instruction listings |
| `CsrWords.dfy`, `Emulator.dfy` | the C code's own form, a mutable class, proved to take exactly those steps |
| `CsrLaws.dfy`, `NestedTraps.dfy`, `Unwinding.dfy` | what the guest kernel's CSR idioms achieve; unwinding of nested traps, on harts and in runs |
| `Effects.dfy`, `CsrEffects.dfy` | what each signal and CSR instruction does, field by field with the manuals' numbers |
| `Walker.dfy`, `Faults.dfy` | the page-table walker and one page fault against Sv39 with R, W and X permissions |
| `Standard.dfy` | both against the whole algorithm |
| `Signals.dfy`, `Runs.dfy`, `Tlb.dfy`, `Interrupts.dfy` | one signal; whole runs; TLB soundness; traps and timer interrupts |
| `Paging.dfy` | turning paging on, and a concrete run from boot to the first served fault |
| `BlockDevice.dfy`, `BlockRun.dfy` | the block device over single commands and over runs; a concrete run |
| `BpfFilter.dfy` | the seccomp filter and a classic-BPF interpreter |
| `PrintfOutput.dfy`, `PrintfNumbers.dfy`, `PrintfNtoa.dfy`, `PrintfFormat.dfy` | printf's integer, %c, %s and %p paths |
| `PrintfRendering.dfy`, `PrintfMeaning.dfy` | format specifications read back; what formats print, told from requests and arguments |

The standards are the RISC-V Privileged Architecture, version 20211203 (sections 3.1.6.1, 4.1.1 to
4.1.3, 4.1.11, 4.3.2 and 4.4), and the Unprivileged ISA, version 20191213 (section 9.1 and the RVC
listings of section 16.8).

A machine state changes in two ways: the guest runs natively, which may change its pc, registers and
all of RAM at will, or a signal arrives and the handler runs to its end. `ebreak` and `exit` are the
outcome `Halt`. Linux enters through `HostVm`: a mapping call with MAP_FIXED_NOREPLACE fails on an
occupied page and on addresses from 2^38 on; pread and pwrite copy up to the first byte that is not
mapped. The SBI number, the `time` CSR, a console read's result and whether an alarm was the armed
timer's expiry are parts of a signal.

Where the code and `doc/how-it-works.md` disagree the model follows the code: a block write is command
2, not 0 (line 404); a forbidden access in S-mode, an access outside RAM and the device, and an
instruction that cannot be emulated in S-mode stop the emulator instead of raising an exception; RAM is
first mapped with MAP_FIXED, not MAP_FIXED_NOREPLACE.

## Model

| member | source | states |
|---|---|---|
| Emulator.Emulator.Handler | src/urvirt-stub/urvirt-stub.c:20-160 | The whole handler: from every valid state and for every signal the C-form code halts exactly when the machine's step does, and otherwise leaves exactly that step's state and keeps the privileged-state invariant (U or S mode, stvec mode 0 or 1, only STI in sip and sie, Bare or Sv39 with ASID 0, FS = XS = 3, SD = 1, other read-only sstatus bits 0) |
| Emulator.Emulator.DispatchSignal | src/urvirt-stub/urvirt-stub.c:28-140 | SIGSYS, SIGILL, SIGALRM and SIGSEGV each take the machine's step before the interrupt check; anything else stops |
| Emulator.Emulator.DeliverTimer | src/urvirt-stub/urvirt-stub.c:144-149 | The word-level test takes a timer trap, with the fields that Effects.TimerTraps gives, exactly when STIP and STIE are set and SIE is set or the mode is U; otherwise nothing changes |
| Effects.TimerTraps | src/urvirt-stub/urvirt-stub.c:142-149 | The interrupt check on the machine's fields: exactly for STIP, STIE and (SIE or U-mode) it leaves scause 2^63 + 5, stval 0, sepc the pc, SPP the mode, SPIE the old SIE, SIE off, S-mode, pc at the base, or at base + 20 if vectored, and every other field but the flush flag and the log as it was |
| Effects.AlarmPends | src/urvirt-stub/urvirt-stub.c:86-92 | SIGALRM sets STIP; a timer that has expired is no longer armed; nothing else changes |
| Effects.AlarmPreemptsUser | src/urvirt-stub/urvirt-stub.c:142-149 | An alarm in U-mode with STIE set preempts the program at its pc, whatever SIE is |
| Emulator.Emulator.FlushIfNeeded | src/urvirt-stub/urvirt-stub.c:151-157 | A due flush unmaps around the stub and clears the flag, otherwise nothing changes |
| Emulator.Emulator.OnSigsys | src/urvirt-stub/urvirt-stub.c:28-63 | An ecall restores a7. In U-mode it is a trap with scause 8, stval 0 and sepc 4 below the reported pc, with no other register changed; in S-mode a0 gets the call's result, pc and the other registers stay, or the emulator stops |
| Effects.UserEcallTraps | src/urvirt-stub/urvirt-stub.c:52-63 | The U-mode ecall field by field: sepc = pc - 4 modulo 2^64, scause 8, stval 0, SPP = U, SPIE = SIE, SIE off, S-mode, pc at the base, registers as before with a7 the number |
| Effects.SupervisorEcallReturns | src/urvirt-stub/urvirt-stub.c:28-51 | The S-mode ecall: a0 is 0 for set_timer and console_putchar, the character for console_getchar, -2 for unknown calls; shutdown and a failed read stop; set_timer sets STIP exactly for a deadline that is not ahead, and the timer in seconds and nanoseconds; pc and everything else stay |
| Emulator.Emulator.OnSigill | src/urvirt-stub/urvirt-stub.c:65-85 | S-mode emulates 32-bit instructions and stops on other lengths, U-mode takes an illegal-instruction trap |
| Effects.IllegalInstructionTraps | src/urvirt-stub/urvirt-stub.c:83-85 | In U-mode every SIGILL is a trap with scause 2, stval 0 and sepc the pc |
| Effects.TrapIsHandled | src/urvirt-stub/urvirt-stub.c:142-157 | A signal that takes a trap resumes the guest at that trap: no interrupt is taken on top, and the flush is done |
| Emulator.Emulator.ClassifyFault | src/urvirt-stub/urvirt-stub.c:97-133 | A fault at pc is a fetch; a fault raised by an instruction that the ISA lists as a load, store or atomic gets that instruction's kind exactly when its address is not pc and the instruction is none of the misread ones |
| AccessKinds.ClassifiesAccesses | src/urvirt-stub/urvirt-stub.c:97-133 | The guess against the instruction listings: right for every 16- and 32-bit memory instruction except floating-point loads and stores, load-reserved, and accesses to pc itself |
| AccessKinds.MisreadInstructions | src/common/riscv-bits.h:24-27 | fld and fsd pass for fetches, lr.d for a store |
| Emulator.Emulator.InitializePriv | src/urvirt-stub/riscv-priv.c:23-43 | Reset leaves S-mode, sstatus with only FS = XS = 3 and SD = 1, and every other CSR zero |
| Emulator.ResetFields | src/urvirt-stub/riscv-priv.c:23-36 | The reset words satisfy the invariant and stand for the reset CSRs: interrupts off, SPP = U, Bare, direct vector at 0 |
| Emulator.BootMaps | src/urvirt-stub/urvirt-stub.c:298-317 | Clearing the process around the stub, adding the signal stack behind it and mapping RAM at its address leaves exactly the whole stub range plus the identity map of RAM |
| Emulator.Boot | src/urvirt-stub/urvirt-stub.c:288-317 | From a process that holds just the stub's image, entrypoint and entrypoint_1 reach a valid state whose machine has just booted: the start of every run below |
| Effects.BootState | src/urvirt-stub/urvirt-stub.c:288-317 | In that machine the kernel starts at 0x80200000 in S-mode with every CSR field clear, and all pages outside the stub map RAM at 0x80000000 to 0x80ffffff, readable, writable and executable |
| Emulator.Emulator.ReadCsr | src/urvirt-stub/riscv-priv.c:45-68 | Each of the nine CSR numbers reads the 64-bit image of its fields, any other stops |
| Emulator.Emulator.WriteCsr | src/urvirt-stub/riscv-priv.c:70-102 | A write changes exactly the writable fields of the one CSR (WARL for stvec and satp) and makes a flush due exactly for a satp write that takes effect |
| CsrWords.WordIsImageOfFields | src/common/riscv-bits.h:94-134 | A stored CSR word is nothing but its fields: for each CSR the word equals the image built from them, with the fixed sstatus bits |
| CsrWords.StoreIsWrite | src/urvirt-stub/riscv-priv.c:70-97 | The mask-and-merge stores keep the word invariant and change the fields as the standard's write does |
| CsrWords.TrapFile | src/urvirt-stub/riscv-priv.c:211-224 | The set/get macro sequence of trap entry yields valid words for the standard's trap: sepc, scause, stval, SPP from the mode, SPIE from SIE, SIE off |
| CsrWords.SretStatus | src/urvirt-stub/riscv-priv.c:127-132 | The macro sequence of sret yields SIE = old SPIE, SPIE = 1, SPP = U and leaves SUM, MXR and the fixed bits |
| CsrWords.TrapTargets | src/urvirt-stub/riscv-priv.c:198-207 | Adding four times the whole scause, modulo 2^64, is the standard's base + 4 * code for vectored interrupts, and the base otherwise |
| Emulator.DecodesByFields | src/urvirt-stub/riscv-priv.c:105-121 | For all 2^32 codes, testing the fields one by one recognises exactly the manuals' sfence.vma, wfi, sret and CSR instruction words |
| Emulator.OtherLengthsDoNotDecode | src/urvirt-stub/urvirt-stub.c:73-82 | The length filter before decoding rejects no privileged instruction |
| CsrEffects.DecodesCsrCode | src/urvirt-stub/riscv-priv.c:146-168 | For every CSR number, rd, register or immediate and form, the word with those fields in the bits of the manual decodes as that instruction |
| CsrEffects.CsrInstructionActs | src/urvirt-stub/riscv-priv.c:146-191 | Every csrrw, csrrs, csrrc and immediate form on each of the nine numbers, on the fields: rd gets the value the number reads as, the CSR the operand's or the bitwise combined value as its fields take it, pc + 4; set and clear with x0 or 0 do not write; only a satp write with mode 0 or 8 makes a flush due |
| CsrEffects.OtherNumbersStop | src/urvirt-stub/riscv-priv.c:64-67 | A CSR instruction stops the emulator exactly for a number other than the nine |
| CsrEffects.SwitchesInterruptsOn | src/urvirt-stub/riscv-priv.c:155-176 | csrsi sstatus, 2 sets SIE and advances pc, nothing else |
| CsrEffects.SwitchesInterruptsOff | src/urvirt-stub/riscv-priv.c:155-184 | csrci sstatus, 2 clears SIE and advances pc, nothing else |
| Effects.WfiAdvances | src/urvirt-stub/riscv-priv.c:114-118 | wfi advances pc by 4 and does nothing else |
| Effects.FenceFlushes | src/urvirt-stub/riscv-priv.c:108-112 | sfence.vma, for all rs1 and rs2, makes a flush due, advances pc by 4 and does nothing else |
| Emulator.Emulator.CsrInstruction | src/urvirt-stub/riscv-priv.c:146-191 | Section 9.1 for every CSRRW/RS/RC(I): old value to rd even when rd is rs1, write exactly when the standard says, x0 reads 0 and is never written although slot 0 is pc, pc advances by 4 |
| Emulator.Emulator.Sret | src/urvirt-stub/riscv-priv.c:120-141 | sret restores mode, pc and SIE, and makes a flush due exactly when it returns to U-mode |
| Effects.SretReturns | src/urvirt-stub/riscv-priv.c:120-141 | sret field by field: mode SPP, pc sepc, SIE = SPIE, SPIE = 1, SPP = U, SUM and MXR kept, a flush due exactly if it was or SPP was U |
| Emulator.Emulator.EnterTrap | src/urvirt-stub/riscv-priv.c:209-229 | Trap entry is section 3.1.6.1's, with a flush due |
| CsrLaws.WriteBackIsIdentity | src/urvirt-stub/riscv-priv.c:70-102 | Writing back what was read changes nothing, for each CSR of every well-formed state |
| CsrLaws.StoredFieldsAreWellFormed | src/urvirt-stub/riscv-priv.c:13-21 | Every state of the emulator is such a state |
| CsrLaws.SwapTwice | src/urvirt-stub/riscv-priv.c:155-168 | Swapping a register with sscratch twice restores both, exactly unless the register is x0 and sscratch is not 0 |
| CsrLaws.SetBitsOnStatus | src/urvirt-stub/riscv-priv.c:169-176 | csrrs on sstatus, a bitwise or of 64-bit words, switches on exactly the selected fields |
| CsrLaws.ClearBitsOnStatus | src/urvirt-stub/riscv-priv.c:177-184 | csrrc on sstatus switches off exactly the selected fields |
| Unwinding.HandlerReturns | src/urvirt-stub/riscv-priv.c:209-229 | In any run, a handler that reads sepc and sstatus with csrr, lets anything happen (further traps and their handlers, to any depth), puts the two values back into registers with interrupts off, writes them with csrw and executes sret restores the mode, pc and SIE of the hart its trap interrupted, with sstatus as before it except SPIE = 1 and SPP = U |
| Unwinding.SignalsTrapAHart | src/urvirt-stub/riscv-priv.c:209-229 | Every signal that takes a trap leaves a hart to which this applies, trapped from the pc and mode that the log records |
| Unwinding.EveryTrapCanReturn | src/urvirt-stub/riscv-priv.c:209-229 | From every world just trapped a handler of four CSR moves runs such a course |
| Unwinding.OperationsAreSignals | src/urvirt-stub/riscv-priv.c:120-191 | Traps, sret and csrw act on the hart as the operations of NestedTraps do |
| NestedTraps.TrapsUnwind | src/urvirt-stub/riscv-priv.c:76-80 | With an explicit save stack: for the hart functions that the signals apply, a well-bracketed handler with traps nested to any depth restores mode, pc and SIE, levels the stack, and leaves sstatus as before except SPIE = 1 and SPP = U |
| NestedTraps.BodyKeepsStack | src/urvirt-stub/riscv-priv.c:209-229 | Every nested handler pops exactly what it pushed, so a sequence of them leaves the stack level |
| Emulator.SignCheck | src/urvirt-stub/riscv-priv.c:239-242 | The shift-left-shift-right test on signed 64-bit values holds exactly when bits 63 to 39 agree; bit 38 is not looked at |
| Walker.SignCheckAccepts | src/urvirt-stub/riscv-priv.c:239-242 | It accepts exactly the canonical Sv39 addresses and the two quarter ranges whose bit 38 is wrong |
| Emulator.Emulator.WalkTables | src/urvirt-stub/riscv-priv.c:244-283 | The three-level loop computes the recursive walk of section 4.3.2 (reserved bits ignored), reading each 8-byte entry wholly inside RAM; it ends at a last-level entry or fails on a broken one exactly when entries that stand in RAM byte by byte lead there |
| Memory.Load64Bytes | src/urvirt-stub/riscv-priv.c:256 | For every RAM and offset, the number read is below 2^64 and byte k of it is the RAM byte at offset + k |
| Walker.EntryFields | src/common/riscv-bits.h:136-149 | For every entry, bits 0 to 7 are V, R, W, X, U, G, A and D and bits 10 to 53 the page number |
| Walker.LookUpByPath | src/urvirt-stub/riscv-priv.c:232-284 | The walker finds an address and entry exactly when bits 63 to 39 agree and three entries, each at the place in RAM that nine bits of the address select, lead to them through page numbers of pointers; it finds none exactly when the bits disagree or an entry on the way lacks V or has W without R |
| Sv39.TableInRam | src/urvirt-stub/riscv-priv.c:250-256 | Every entry of a page-aligned table that starts in RAM lies in RAM with all eight bytes |
| Emulator.Emulator.LookupPaInRam | src/urvirt-stub/riscv-priv.c:232-284 | The walker's results: stop on a table outside RAM or a superpage, no translation under Bare, not found, or address and entry |
| Walker.GrantsLikeSv39 | src/urvirt-stub/riscv-priv.c:232-284 | For canonical addresses the walker plus permission check grants a RAM address exactly when the Sv39 algorithm with reserved bits ignored gives that address and the page is no superpage, and exactly when three entries, read off RAM byte by byte, lead to it and the last has the access's bit; a last-level entry with R = W = X = 0 is refused |
| Walker.GrantsLikeStrictSv39 | src/urvirt-stub/riscv-priv.c:258-278 | With the reserved-bit check (bits 63 to 54, and D, A and U of pointers): the R/W/X algorithm yields a RAM address from an ordinary page exactly when the emulator grants that address and no entry read has a reserved bit set |
| Walker.ReservedBitsAreIgnored | src/urvirt-stub/riscv-priv.c:258-278 | A concrete RAM and address on which the standard faults and the emulator grants |
| Walker.SamePageSameLookup | src/urvirt-stub/riscv-priv.c:244-278 | Two addresses of one page find the same entry, so one mapping may serve them all |
| Faults.FaultIsServed | src/urvirt-stub/riscv-priv.c:352-384 | A fault on a free user page that the algorithm translates to RAM maps exactly that page, and the retried access reaches exactly the translated byte |
| Effects.GrantedAccessMaps | src/urvirt-stub/riscv-priv.c:366-384 | The mapping on the entry's bits: frame (pa - 0x80000000) / 4096, readable, writable and executable as bits 1, 2 and 3 of the last entry, at page va / 4096, and nothing else changes |
| Faults.NoSpuriousPageFault | src/urvirt-stub/riscv-priv.c:341-439 | Whenever the emulator raises a page fault, for any address, Sv39 is on and the algorithm with R, W and X permissions raises that page fault too; the trap leaves scause 12 for a fetch, 13 for a load and 15 for a store, stval the address, sepc the pc, S-mode, SPP and SPIE from mode and SIE |
| Faults.PageFaultIsReported | src/urvirt-stub/riscv-priv.c:341-439 | Under Sv39, for every address, access and mode: the emulator raises a page fault, with cause 12, 13 or 15 and the address, exactly when the algorithm with R, W and X permissions does and the fault is reportable, that is, the sign check fails, or the walk finds no valid entry, or U-mode lacks permission for a RAM page; and exactly when the entries in RAM, byte by byte, say so |
| Effects.BrokenPathFaults | src/urvirt-stub/riscv-priv.c:434-438 | High bits that differ or a broken entry on the path: that page fault in every mode |
| Effects.ForbiddenAccessFaults | src/urvirt-stub/riscv-priv.c:355-365 | A last entry without the access's permission bit: that page fault in U-mode, a stop in S-mode |
| Faults.SupervisorPermissionFaultStops | src/urvirt-stub/riscv-priv.c:355-361 | A concrete S-mode store to a read-only page: the standard raises a page fault, the emulator stops |
| Faults.WrongSignStops | src/urvirt-stub/riscv-priv.c:239-242 | A concrete address whose bit 38 is wrong: the standard raises a page fault, the emulator stops |
| Faults.HighAddressIsNeverMapped | src/urvirt-stub/riscv-priv.c:371-383 | Addresses from 2^38 on never get a mapping; where the walk would grant one the emulator stops |
| Standard.TranslatesLikeStandard | src/urvirt-stub/riscv-priv.c:232-284 | Section 4.3.2 in full, for either treatment of A and D: it translates a canonical address to a RAM address in an ordinary page exactly when the emulator's walk finds that address, no entry read has a reserved bit, and the entry passes U, SUM, MXR, A and D |
| Standard.GrantedByEmulator | src/urvirt-stub/riscv-priv.c:352-369 | What the emulator grants, the standard grants exactly when no reserved bit is on the way and the entry passes those checks |
| Standard.GrantedByStandard | src/urvirt-stub/riscv-priv.c:352-369 | What the standard grants from RAM, the emulator grants exactly unless it is a load that only MXR makes readable |
| Standard.ReportedFaultAgainstStandard | src/urvirt-stub/riscv-priv.c:355-365 | A page fault that the emulator raises is one of the standard exactly unless it is a load that MXR makes readable |
| Standard.MxrLoadIsRefused | src/urvirt-stub/riscv-priv.c:356 | A concrete U-mode load from an execute-only page with MXR set: allowed by the standard, a page fault in the emulator |
| Standard.SupervisorPageIsServed | src/urvirt-stub/riscv-priv.c:355-369 | A concrete U-mode load from a supervisor page: a page fault by the standard, served by the emulator |
| Faults.GrantServedOnFreePage | src/urvirt-stub/riscv-priv.c:366-383 | For every machine: a fault that the walk grants is served exactly when its page is a free user page |
| Faults.RaisedPermissionsStop | src/urvirt-stub/riscv-priv.c:371-383 | A concrete page made writable without sfence.vma after it was mapped read-only: the walk grants the store, the emulator stops |
| Emulator.Emulator.InstallPage | src/urvirt-stub/riscv-priv.c:367-383 | The mmap arguments name the leaf's frame, a page-aligned file offset in [0, RAM_SIZE - 4096], at the fault's page with the leaf's R, W and X |
| HostVm.UnmapAroundKeepsExactlyStub | src/urvirt-stub/urvirt-stub.c:151-157 | The two munmap calls, the second length being 64-bit arithmetic, remove every user page outside the stub range and none inside |
| Signals.FillMapsOnePage | src/urvirt-stub/riscv-priv.c:366-384 | A fill adds one mapping, for a user page that had none, and changes nothing else |
| Signals.OthersMapNothing | src/urvirt-stub/urvirt-stub.c:28-140 | No other signal touches the mappings before the flush |
| Signals.ContextChangesFlush | src/urvirt-stub/riscv-priv.c:93-97 | For every signal, a change of privilege mode or satp makes a flush due |
| Signals.AtMostOneTrap | src/urvirt-stub/urvirt-stub.c:142-149 | A signal enters at most one trap; an interrupt (scause 2^63 + 5) is taken only when the signal entered none and STIP, STIE and (SIE or U-mode) are set, and its sepc is the pc the guest would have resumed at |
| Signals.InterruptAfterSret | src/urvirt-stub/urvirt-stub.c:142-149 | With STIP, STIE and (SPIE or SPP = U) set, sret is followed by the interrupt, which records the sret's target pc and mode |
| Signals.NothingIsLeftPending | src/urvirt-stub/urvirt-stub.c:142-157 | When the guest resumes no flush is due and never are STIP, STIE and (SIE or U-mode) set together; Tlb.RunsAreSound has it at every point of a run |
| Runs.HandleWithFlush | src/urvirt-stub/urvirt-stub.c:151-157 | After a signal that flushes only the stub's mappings are left |
| Tlb.RunsAreSound | src/urvirt-stub/riscv-priv.c:341-384 | In every world that any run from boot reaches: one satp and one mode since the last flush, nothing pending, the stub's pages as at boot, and every other mapping backed by the walk at some moment since the last flush |
| Tlb.AccessesAreTranslated | src/urvirt-stub/riscv-priv.c:341-384 | TLB soundness: an access that does not fault reaches the byte the algorithm gave it at a moment since the last flush, under the current satp and in the current privilege mode |
| Tlb.AccessesWereTranslated | src/urvirt-stub/riscv-priv.c:341-384 | The same over the run itself: the byte was given in the world after some prefix of its events, with no flush since |
| Tlb.FenceHidesOlderTables | src/urvirt-stub/riscv-priv.c:108-112 | sfence.vma over runs: whatever happens after the guest kernel executed it, no access uses page tables from before it |
| Tlb.EpochIsHistory | src/urvirt-stub/urvirt-stub.c:151-157 | The moments kept since the last flush are exactly the last worlds of the run, in order |
| Tlb.AccessesAreExact | src/urvirt-stub/riscv-priv.c:341-384 | An access that does not fault reaches the byte the R/W/X algorithm gives it now, if the walk of that address is unchanged since the flush |
| Tlb.AccessesFollowTheStandard | src/urvirt-stub/riscv-priv.c:341-384 | ... and that is the whole standard's translation for the current mode, SUM and MXR exactly when no reserved bit is set on the way and the entry passes U, SUM, MXR, A and D |
| Tlb.GrantedFaultIsServed | src/urvirt-stub/riscv-priv.c:371-383 | With unchanged tables a granted fault always finds its page free: MAP_FIXED_NOREPLACE never meets an older mapping |
| Tlb.GrantedFaultsMakeProgress | src/urvirt-stub/urvirt-stub.c:94-157 | The whole handler then resumes the guest with the access mapped, without an interrupt or a flush taking the page away again |
| Tlb.MappingsAccumulate | src/urvirt-stub/riscv-priv.c:371-376 | Between flushes no mapping is lost or replaced, and every fill adds exactly one |
| Tlb.FillingsAreBounded | src/urvirt-stub/riscv-priv.c:371-376 | Between two flushes there are at most as many fills as free user pages |
| Tlb.FaultsAtMostOnce | src/urvirt-stub/riscv-priv.c:366-384 | Once served, the same access never faults again before the next flush |
| Runs.StubIntactStep | src/urvirt-stub/urvirt-stub.c:151-157 | No event changes, removes or replaces a page of the stub range |
| Paging.PagingTurnsOn | src/urvirt-stub/riscv-priv.c:93-97 | From boot, whatever the kernel put in RAM, its satp write switches the address space, drops the identity map down to the stub's own pages and resumes at the next instruction |
| Paging.FirstLoadIsServed | src/urvirt-stub/riscv-priv.c:341-384 | A concrete run from boot in which the hypotheses of the served-fault theorems hold: the first load after paging is on is served, at the mapped byte |
| Interrupts.TrapsAreBounded | src/urvirt-stub/urvirt-stub.c:20-160 | A run takes no more traps than it received signals |
| Signals.DelayIsExact | src/urvirt-stub/handle-sbi.c:35-43 | The wrapping 64-bit delay is the true one exactly when the deadline is not past and the product fits 64 bits |
| Signals.DelayCanWrap | src/urvirt-stub/handle-sbi.c:35-43 | A deadline 2^64 / 1000 ticks ahead yields a delay of 384 nanoseconds |
| Interrupts.SetTimerKeeps | src/urvirt-stub/handle-sbi.c:31-48 | set_timer leaves STIP set or the Linux timer armed for exactly the requested nanoseconds, if and only if they fit 64 bits |
| Interrupts.NoTimerInterruptIsLost | src/urvirt-stub/handle-sbi.c:31-48 | In every run, unless the guest wrote sip since its last set_timer, STIP is set or the timer is armed with seconds * 10^9 + nanoseconds equal to the requested delay and nanoseconds below 10^9 |
| Emulator.Emulator.HandleLegacySbiCall | src/urvirt-stub/handle-sbi.c:8-53 | The SBI calls' results, with set_timer's effect on the timer and STIP |
| Emulator.Emulator.PreadBlock | src/urvirt-stub/riscv-priv.c:400-401 | The kernel's byte-by-byte copy into guest memory |
| BlockDevice.OffsetOfBlock | src/urvirt-stub/riscv-priv.c:400-403 | 64-bit offsets address block id mod 2^55, and none if that is 2^54 or more |
| Effects.DeviceStores | src/urvirt-stub/riscv-priv.c:395-423 | A store to 0x10400008 sets the block number, to 0x10400010 the buffer, to 0x10400000 starts command 1 or 2 at byte 512 * number modulo 2^64; every other address or command stops |
| Effects.DeviceStoreInstruction | src/urvirt-stub/riscv-priv.c:385-423 | The store instruction has that effect with its register's value and advances pc by 4 or 2; other accesses stop |
| BlockDevice.WriteCommand | src/urvirt-stub/riscv-priv.c:402-403 | Command 2 replaces the front of the addressed block by the readable front of the buffer and no other byte of any block |
| BlockDevice.ReadCommand | src/urvirt-stub/riscv-priv.c:400-401 | Command 1 fills the front of the buffer, as far as file and mappings go, with the front of the addressed block, even across two mappings of one frame, and changes no other byte of RAM and nothing else |
| BlockDevice.ReadsBackWhatWasWritten | src/urvirt-stub/riscv-priv.c:385-423 | Over runs: after a store of the write command with a mapped buffer, any events that do not write that block, and a store of the read command for it with a mapped buffer, the buffer holds byte for byte what was written |
| BlockRun.BlockIsReadBack | src/urvirt-stub/riscv-priv.c:385-423 | A concrete run that meets the hypotheses of the theorem above |
| BlockDevice.DiskFollowsWrites | src/urvirt-stub/riscv-priv.c:385-423 | Over any run every block holds what the run's writes to it left, in order, and unwritten blocks what they held before |
| BlockDevice.DecodesStores | src/urvirt-stub/riscv-priv.c:301-328 | For every store the decoder finds the source register of sd and c.sd and advances pc by the instruction's length; it is right exactly unless the instruction is c.sdsp, which it rejects |
| BlockDevice.CsdspIsRejected | src/urvirt-stub/riscv-priv.c:321-323 | A concrete c.sdsp of ra that the decoder rejects |
| BlockDevice.StoresRegister | src/urvirt-stub/riscv-priv.c:330-339 | The stored value is the source register's exactly unless that is x0, for which it is pc |
| BpfFilter.FilterIsExact | src/urvirt-stub/seccomp-bpf.c:16-45 | The program returns for every input, and allows exactly start <= ip < end as 64-bit numbers, for all start and end |
| BpfFilter.VerdictOnBytes | src/urvirt-stub/seccomp-bpf.c:5-45 | For the instruction pointer whose eight bytes stand at offset 8 of seccomp_data the verdict is 0x7fff0000 inside the range and 0x00030000 outside |
| BpfFilter.FilterImage | src/urvirt-stub/seccomp-bpf.c:16-45 | Each instruction's eight bytes: opcode, jump distances and the little-endian constant |
| BpfFilter.GenAddrFilter | src/urvirt-stub/seccomp-bpf.c:9-52 | The byte-copy loop leaves memory that the kernel reads back as exactly that program, twelve rows of eight bytes with the Linux opcodes, jump distances and verdicts, and the rest of the buffer untouched |
| BpfFilter.ReadsBackProgram | src/urvirt-stub/seccomp-bpf.c:47-51 | Reading the little-endian image of any program gives the program |
| PrintfOutput.OutBuffer | src/urvirt-stub/printf.c:133-138 | A character is written at its index if that is below the bound, and nothing else |
| PrintfOutput.SentTwice | src/urvirt-stub/printf.c:133-138 | Bounded output of two texts in a row is bounded output of their concatenation |
| PrintfOutput.OutRev | src/urvirt-stub/printf.c:199-223 | The three loops send the reversed buffer padded to the width on the proper side |
| PrintfNumbers.DigitsDenote | src/urvirt-stub/printf.c:293-297 | The digits produced denote the value modulo base^limit |
| PrintfNumbers.ConversionIsExact | src/urvirt-stub/printf.c:293-297 | The loop ends because the value reached 0, with digits that denote it, exactly for values below base^limit |
| PrintfNumbers.WordsAreExact | src/urvirt-stub/printf.c:281-301 | Octal, decimal and hexadecimal: every 64-bit value takes at most 22 of the 32 places, and the digits denote it |
| PrintfNumbers.Atoi | src/urvirt-stub/printf.c:188-195 | The number denoted by the leading digits, modulo 2^32, and where they end |
| PrintfNumbers.AtoiReadsBack | src/urvirt-stub/printf.c:188-195 | What the conversion prints in decimal is read back modulo 2^32 |
| PrintfNumbers.Strnlen | src/urvirt-stub/printf.c:171-176 | The string's length, limited by maxsize |
| PrintfNtoa.Convert | src/urvirt-stub/printf.c:283-298 | The do-while loop fills the buffer with the value's digits in reverse |
| PrintfNtoa.NtoaFormat | src/urvirt-stub/printf.c:227-277 | Zero fill, '#' and sign in place, never outside the 32-byte buffer for any base, flags, width and precision |
| PrintfNtoa.NtoaLong | src/urvirt-stub/printf.c:281-301 | The whole conversion sends the text of the number and returns the index after it |
| PrintfNtoa.IntegerText | src/urvirt-stub/printf.c:227-301 | Base 8 and up without '#', for every width, precision and flags: the text is padding, sign, zeros and digits, as many of them as the 32-byte buffer takes, and the zeros and digits denote the value |
| PrintfNtoa.IntegerLength | src/urvirt-stub/printf.c:227-301 | Its length, for every width, precision and flags |
| PrintfNtoa.OrdinaryLength | src/urvirt-stub/printf.c:227-301 | That is max(width, sign and digits after precision padding) for a precision up to 31 and, with zero padding, a width up to 32; '-' switches the precision's zeros off |
| PrintfNtoa.WidthIsMet | src/urvirt-stub/printf.c:237-239 | At least width characters are printed exactly unless zeros would have to fill more than the buffer's 32 places |
| PrintfNtoa.WideZerosAreCut | src/urvirt-stub/printf.c:237-239 | "%040d" of 1 prints 32 characters |
| PrintfNtoa.PrecisionIsMet | src/urvirt-stub/printf.c:230-236 | At least precision digits are printed exactly when the precision is at most 32 or, with '-', at most the number of digits |
| PrintfNtoa.MinusDropsPrecision | src/urvirt-stub/printf.c:230-236 | "%-.5d" of 42 prints 42 |
| PrintfNtoa.SignIsKept | src/urvirt-stub/printf.c:264-274 | A minus sign is printed exactly when digits and zeros leave one of the 32 places free |
| PrintfNtoa.SignCanBeLost | src/urvirt-stub/printf.c:264-274 | A negative number with precision 32 prints without its sign |
| PrintfNtoa.HashDropsDigits | src/urvirt-stub/printf.c:243-249 | "%#4x" of 0x1234 prints 0x34 |
| PrintfNtoa.HashKeepsDigits | src/urvirt-stub/printf.c:229-262 | With '#', for every numeral in base 2, 8 or 16, precision, width and flags: all digits survive exactly unless there is no precision and digits with their padding zeros just fill a field of at most 32, leaving less room than the one or two places that the prefix takes |
| PrintfNtoa.HashDropsDigitsAfterZeros | src/urvirt-stub/printf.c:237-249 | "%#05x" of 0x1234 prints 0x234 |
| PrintfFormat.ParseSpec | src/urvirt-stub/printf.c:601-680 | The loops over flags, width, precision and length read what SpecAt reads |
| PrintfRendering.ReadsBackRequest | src/urvirt-stub/printf.c:601-680 | A request (flag characters in any order, width and precision as number, argument or nothing, length) rendered as text anywhere in a format is read back as exactly that: flags, width and precision (with the meaning of negative '*' arguments), length, the arguments taken, and the index after the text |
| PrintfFormat.ConvertInteger | src/urvirt-stub/printf.c:690-755 | Integer conversions send the text of IntegerConversion, which PrintfMeaning.ConvertsInteger gives for every request |
| PrintfMeaning.ConvertsInteger | src/urvirt-stub/printf.c:683-755 | Every integer conversion, for every request, length and argument: sign, the mark of '#', zeros, and the numeral of the argument taken as an 8-, 16-, 32- or 64-bit number, two's complement for d and i (plain char unsigned), in base 16 for x and X, 8 for o, 2 for b and 10 otherwise, upper case exactly for X, in its field; nothing exactly for the least int and long, whose negation is undefined in C |
| PrintfMeaning.DigitsAreNumeral | src/urvirt-stub/printf.c:283-298 | The conversion loop leaves the numeral of the value in reverse, from its last digit, as far as the buffer goes |
| PrintfMeaning.NumeralFits | src/urvirt-stub/printf.c:281-301 | The 32 places hold every 64-bit numeral in base 8 and up and every 32-bit one in base 2 |
| PrintfMeaning.BareConversion | src/urvirt-stub/printf.c:683-755 | A conversion on its own, such as "%x", prints a minus sign if need be and the numeral |
| PrintfMeaning.Numerals | src/urvirt-stub/printf.c:690-705 | Some numerals: 255 is ff, FF and 377, 5 is 101, 90 is 90 |
| PrintfFormat.ConvertString | src/urvirt-stub/printf.c:796-819 | %s sends at most the precision, padded to the width |
| PrintfMeaning.ConvertsArgument | src/urvirt-stub/printf.c:683-839 | The same for %s, of which a precision limits the length, %c and %p: text and spaces on the side that '-' or a negative width selects, and sixteen upper-case hexadecimal digits for a pointer |
| PrintfMeaning.PrintsRequest | src/urvirt-stub/printf.c:594-845 | A rendered request with its conversion character, anywhere in a format, prints that and takes exactly its arguments |
| PrintfMeaning.PrintsItself | src/urvirt-stub/printf.c:594-602 | Other characters print themselves, two percent signs one |
| PrintfMeaning.PrintsFormat | src/urvirt-stub/printf.c:594-850 | A format made of such pieces prints what its pieces print, in order |
| PrintfFormat.Vsnprintf | src/urvirt-stub/printf.c:577-857 | For every count n the result is the length of the unbounded text (PrintfMeaning.PrintsFormat says what that is) converted to int, and is that length below 2^31; the buffer gets its first min(length, n - 1) characters and a NUL, and nothing at index n or above is touched |

## Left out

- Emulator.Emulator.LookupPaInRam: the walker's loop is a method of its own, and returning pointers is returning values.
- Emulator.BootMaps: the boot sequence is the constructor, InitializePriv and lemmas about their results, not one method; the signal stack's and the stub's contents are not modelled.
- Emulator.Emulator.DecodeSd: the C function returns no value for a 32-bit instruction that is no store and for quadrant-1 compressed instructions; both are modelled as rejection.
- Emulator.Emulator.PreadBlock: copies to and from the stub's own pages, which the guest is trusted not to ask for, stop at them like at unmapped pages; the file is a byte sequence, updated as a value.
- BlockDevice.WriteCommand: short reads and writes for other reasons than the mappings and the end of the file do not occur.
- Tlb.GrantedFaultIsServed: assumes that the configuration page, which the handler keeps mapped at an address of the kernel's choice while it runs, and the walker's temporary mapping of RAM are not placed on the page about to be filled; MAP_FIXED_NOREPLACE would fail there.
- Unwinding.HandlerReturns: that guest memory keeps the two saved values until the handler reloads them is the guest's own affair and a hypothesis.
- Superpages, page tables outside RAM, a forbidden access in S-mode and a return to Bare mode stop the emulator; accesses to device addresses are not checked for permission. The model does the same.
- Walker.GrantsLikeSv39: compares with the algorithm's R, W and X permissions and ignores reserved bits, as the emulator does; module Standard compares with all of it.
- Standard.TranslatesLikeStandard: that hardware of the updating kind also sets A and D in memory is not modelled; the emulator never sets them.
- Interrupts.NoTimerInterruptIsLost: time does not pass in the model; the kernel's delivery of an armed timer's signal is assumed.
- PrintfFormat.Vsnprintf: formats with floating-point conversions, a missing or mistyped argument, the negation of the most negative value, or an unfinished specification have no text in the model; the null, character and callback outputs are not modelled.
- PrintfNtoa.NtoaLong: the 64-bit long long variant is the same code on the same width and is not repeated.
- The signal-handling wrapper, stack switching, system-call wrappers, loader and test kernel.
- Copying the kernel into RAM, console output, shutdown's exit code, counters, log output and the magic ecall.
- The temporary mappings of the configuration page and of RAM inside the handler are gone before the guest resumes and otherwise not modelled.
- Departures of the emulated hart from the standard that the hart of module Isa shares: sepc keeps its low bits, UXL reads as 0, STIP is writable, reads of unknown CSRs stop.
- Misclassified faults: claims about served faults are about the kind that the stub guesses; AccessKinds says when the guess is right. A fetch fault on the second half of an instruction is not modelled.
- Floating-point printf.
