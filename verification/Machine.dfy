/**
 * The emulated machine between two resumptions of the guest: the hart, its RAM, the host mappings
 * that act as its TLB, the timer and the block device, with one step for each signal.
 */
module Machine {
  import opened Words
  import opened Memory
  import opened Bits
  import opened Isa
  import opened Sv39
  import opened HostVm

  /** The one-shot Linux timer; settime with a zero delay disarms it. */
  datatype Timer = Disarmed | Armed(seconds: int, nanoseconds: int)

  /** A trap taken: what it interrupted and why. */
  datatype TrapRecord = TrapRecord(pc: Word, from: Mode, cause: Word)

  /** The log records every trap since boot; nothing depends on it. */
  datatype Machine = Machine(
    hart: Hart, flushPending: bool, ram: Ram, vm: HostVm, stub: StubRange,
    timer: Timer, file: File, blockId: Word, blockBuf: Word, log: seq<TrapRecord>)

  /**
   * What the kernel reports. An ecall carries the SBI number, the time CSR and what a console read
   * would return (None is a read error); a fault carries its address and the code at pc.
   */
  datatype Signal =
    | Ecall(number: Word, time: Word, console: Option<Word>)
    | IllegalInstruction(code: Code)
    | Alarm(expired: bool)
    | Fault(va: Word, code: Code)
    | Other

  /** Halt stands for ebreak and for exit: the guest never resumes. */
  datatype Outcome = Halt | Next(m: Machine)

  // ---- the state the kernel starts in ----

  const KERNEL_START: Word := 0x8020_0000
  const SIGSTACK_SIZE: int := 4096
  const RAM_FIRST_PAGE: int := 0x8_0000

  predicate IsRamPage(p: int) { RAM_FIRST_PAGE <= p < RAM_FIRST_PAGE + 0x1000 }

  function IdentityPage(p: int): HostPage { RamPage(p - RAM_FIRST_PAGE, true, true, true) }

  /** RAM mapped at its physical address with all permissions. */
  function RamIdentity(): HostVm {
    map p: int | 0 <= p < 0x400_0000 && IsRamPage(p) :: IdentityPage(p)
  }

  /** All of the stub's own pages, and RAM at its physical address. */
  predicate BootMappings(vm: HostVm, stub: StubRange) {
    && (forall p :: 0 <= p < USER_END / PAGE && InStub(stub, p) ==> p in vm)
    && (forall p :: p in vm ==>
      if InStub(stub, p) then vm[p].StubPage? else IsRamPage(p) && vm[p] == IdentityPage(p))
  }

  function ResetCsrs(): Csrs {
    Csrs(Status(false, false, User, false, false), TrapVector(0, false), 0, 0, 0, 0,
         false, false, AddressSpace(false, 0))
  }

  /** S-mode without translation, interrupts or pending work, at the kernel's first instruction. */
  predicate Booted(m: Machine) {
    && m.hart.mode == Supervisor
    && m.hart.pc == KERNEL_START
    && m.hart.csrs == ResetCsrs()
    && !m.flushPending
    && m.timer == Disarmed
    && m.log == []
    && ValidStub(m.stub)
    && BootMappings(m.vm, m.stub)
  }

  // ---- traps, interrupts and the deferred flush ----

  function TakeTrap(m: Machine, cause: Word, tval: Word): Machine {
    m.(hart := Trap(m.hart, cause, tval), flushPending := true,
       log := m.log + [TrapRecord(m.hart.pc, m.hart.mode, cause)])
  }

  function DeliverInterrupt(m: Machine): Machine {
    if TimerInterruptReady(m.hart) then TakeTrap(m, CAUSE_TIMER, 0) else m
  }

  function Flush(m: Machine): Machine {
    if m.flushPending then m.(flushPending := false, vm := UnmapAround(m.vm, m.stub)) else m
  }

  // ---- SIGILL ----

  /** sfence.vma, sret to U-mode and an effective satp write make the cached translations stale. */
  predicate DropsTranslations(h: Hart, i: Instr) {
    match i
    case SfenceVma => true
    case Wfi => false
    case Sret => h.csrs.status.spp == User
    case CsrAccess(op, csr, rd, src) =>
      CsrAt(csr) == Some(Satp) && Writes(op, src)
      && SatpModeSupported(Combine(op, ReadCsr(h.csrs, Satp), OperandValue(h.x, src)))
  }

  function OnPrivileged(m: Machine, code: Code): Outcome {
    if Decode(code).None? || Execute(m.hart, Decode(code).value).None? then Halt
    else
      var i := Decode(code).value;
      Next(m.(hart := Execute(m.hart, i).value,
              flushPending := m.flushPending || DropsTranslations(m.hart, i)))
  }

  function OnIllegal(m: Machine, code: Code): Outcome {
    if m.hart.mode == Supervisor then OnPrivileged(m, code)
    else Next(TakeTrap(m, CAUSE_ILLEGAL, 0))
  }

  // ---- SIGSYS ----

  const A0: RegNumber := 10
  const A7: RegNumber := 17
  const NOT_SUPPORTED: Word := TWO_64 - 2
  const BILLION: int := 1_000_000_000

  /** The delay in nanoseconds as 64-bit code computes it: both operations wrap. */
  function TimerDelay(deadline: int, now: int): int {
    (((deadline - now) % TWO_64) * 1000) % TWO_64
  }

  function TimerFor(delay: int): Timer {
    if delay == 0 then Disarmed else Armed(delay / BILLION, delay % BILLION)
  }

  function SetPending(h: Hart, pending: bool): Hart {
    h.(csrs := h.csrs.(stip := pending))
  }

  function SetTimer(m: Machine, deadline: int, now: int): Machine {
    m.(timer := TimerFor(TimerDelay(deadline, now)), hart := SetPending(m.hart, deadline <= now))
  }

  function Return(m: Machine, value: Word): Outcome {
    Next(m.(hart := m.hart.(x := SetReg(m.hart.x, A0, value))))
  }

  function SbiCall(m: Machine, number: Word, time: Word, console: Option<Word>): Outcome {
    if number == 1 then Return(m, 0)
    else if number == 2 then (if console.Some? then Return(m, console.value) else Halt)
    else if number == 8 then Halt
    else if number == 0 then Return(SetTimer(m, m.hart.x[A0], time), 0)
    else Return(m, NOT_SUPPORTED)
  }

  function OnEcall(m: Machine, number: Word, time: Word, console: Option<Word>): Outcome {
    var m1 := m.(hart := m.hart.(x := SetReg(m.hart.x, A7, number)));
    if m.hart.mode == Supervisor then SbiCall(m1, number, time, console)
    else
      // the signal reports the address after the ecall, the trap the address of it
      Next(TakeTrap(m1.(hart := m1.hart.(pc := Wrap(m1.hart.pc - 4))), CAUSE_ECALL_FROM_U, 0))
  }

  // ---- SIGSEGV ----

  function FaultCause(access: Access): Word {
    match access case Fetch => 12 case Load => 13 case Store => 15
  }

  function RvcFunct3(code: Code): int { (code / 0x2000) % 8 }

  predicate LooksLikeRvcLoad(code: Code) {
    (code % 4 == 0 || code % 4 == 2) && 1 <= RvcFunct3(code) <= 3
  }

  predicate LooksLikeRvcStore(code: Code) {
    (code % 4 == 0 || code % 4 == 2) && 5 <= RvcFunct3(code) <= 7
  }

  /** The kind of access behind a fault, guessed from its address and the instruction at pc. */
  function Classify(va: Word, pc: Word, code: Code): Access {
    if va == pc then Fetch
    else if code % 4 != 3 then
      if LooksLikeRvcLoad(code) then Load else if LooksLikeRvcStore(code) then Store else Fetch
    else if code % 0x80 == 0x03 then Load
    else if code % 0x80 == 0x23 || code % 0x80 == 0x2F then Store
    else Fetch
  }

  /** The walker's view of an address. Stuck is a superpage or a page table outside RAM. */
  datatype Lookup = Unmapped | Untranslated | Stuck | Found(pa: int, pte: int)

  /** The walker's sign check: it compares bits 63 to 39 with each other and never looks at bit 38. */
  predicate SignExtended39(va: int) {
    va < 2 * HALF || va >= TWO_64 - 2 * HALF
  }

  function LookUp(ram: Ram, space: AddressSpace, va: int): Lookup {
    if !space.sv39 then Untranslated
    else if !SignExtended39(va) then Unmapped
    else
      match WalkFrom(false, ram, RootTable(space), va, 2)
      case OutsideRam => Stuck
      case Invalid => Unmapped
      case Leaf(level, pte) => if level > 0 then Stuck else Found(LeafAddress(0, pte, va), pte)
      case NoLeaf(pte) => Found(LeafAddress(0, pte, va), pte)
  }

  function PageAddress(va: int): (a: int)
    ensures a % PAGE == 0
  {
    va - va % PAGE
  }

  function PageFor(pa: int, pte: int): (page: HostPage)
    requires InRam(pa)
    ensures ValidPage(page)
  {
    RamPage((pa - RAM_START) / PAGE, Readable(pte), Writable(pte), Executable(pte))
  }

  function FillPage(m: Machine, va: int, page: HostPage): Outcome
    requires ValidPage(page)
  {
    var vm := MapPage(m.vm, PageAddress(va), page);
    if vm.None? then Halt else Next(m.(vm := vm.value))
  }

  function OnRamFault(m: Machine, access: Access, va: Word, pa: int, pte: int): Outcome
    requires InRam(pa)
  {
    if Permits(pte, access) then FillPage(m, va, PageFor(pa, pte))
    else if m.hart.mode == Supervisor then Halt
    else Next(TakeTrap(m, FaultCause(access), va))
  }

  const BLOCK_COMMAND: int := 0x1040_0000
  const BLOCK_ID: int := 0x1040_0008
  const BLOCK_BUF: int := 0x1040_0010

  /** The source register of the store at pc, as the emulator decodes it. */
  function StoreSource(code: Code): Option<RegNumber> {
    if code % 2 == 1 then
      if code % 0x80 == 0x23 && Funct3(code) == 3 then Some((code / 0x10_0000) % 32) else None
    else if code % 4 == 0 && RvcFunct3(code) == 7 then Some(8 + (code / 4) % 8)
    else if code % 4 == 2 && RvcFunct3(code) == 3 then Some((code / 4) % 32)
    else None
  }

  /** Slot 0 of the saved registers holds pc, so a store of x0 to a device stores pc. */
  function StoreData(h: Hart, rs2: RegNumber): Word {
    if rs2 == 0 then h.pc else h.x[rs2]
  }

  function StoreLength(code: Code): int { if code % 2 == 1 then 4 else 2 }

  function Advance(m: Machine, code: Code): Machine {
    m.(hart := m.hart.(pc := Wrap(m.hart.pc + StoreLength(code))))
  }

  /** The byte offset of a block, computed modulo 2^64. */
  function BlockOffset(id: int): int { (BLOCK_SIZE * id) % TWO_64 }

  function BlockTransfer(m: Machine, command: Word): Outcome {
    var offset := BlockOffset(m.blockId);
    if command == 1 then Next(m.(ram := Pread(m.ram, m.vm, m.blockBuf, m.file, offset)))
    else if command == 2 then Next(m.(file := Pwrite(m.ram, m.vm, m.blockBuf, m.file, offset)))
    else Halt
  }

  function DeviceStore(m: Machine, pa: int, data: Word): Outcome {
    if pa == BLOCK_COMMAND then BlockTransfer(m, data)
    else if pa == BLOCK_ID then Next(m.(blockId := data))
    else if pa == BLOCK_BUF then Next(m.(blockBuf := data))
    else Halt
  }

  function OnDeviceFault(m: Machine, access: Access, pa: int, code: Code): Outcome {
    if access != Store || StoreSource(code).None? then Halt
    else
      match DeviceStore(m, pa, StoreData(m.hart, StoreSource(code).value))
      case Halt => Halt
      case Next(m1) => Next(Advance(m1, code))
  }

  function OnFault(m: Machine, access: Access, va: Word, code: Code): Outcome {
    match LookUp(m.ram, m.hart.csrs.satp, va)
    case Untranslated => Halt
    case Stuck => Halt
    case Unmapped => Next(TakeTrap(m, FaultCause(access), va))
    case Found(pa, pte) =>
      if InRam(pa) then OnRamFault(m, access, va, pa, pte)
      else OnDeviceFault(m, access, pa, code)
  }

  // ---- the whole handler ----

  function Dispatch(m: Machine, s: Signal): Outcome {
    match s
    case Ecall(number, time, console) => OnEcall(m, number, time, console)
    case IllegalInstruction(code) => OnIllegal(m, code)
    case Alarm(expired) =>
      Next(m.(hart := SetPending(m.hart, true), timer := if expired then Disarmed else m.timer))
    case Fault(va, code) => OnFault(m, Classify(va, m.hart.pc, code), va, code)
    case Other => Halt
  }

  function Handle(m: Machine, s: Signal): Outcome {
    match Dispatch(m, s)
    case Halt => Halt
    case Next(m1) => Next(Flush(DeliverInterrupt(m1)))
  }
}
