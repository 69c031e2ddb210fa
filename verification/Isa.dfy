/**
 * The supervisor-level hart as the RISC-V manuals describe it: fields instead of bit patterns.
 * Sections cited are those of the Privileged Architecture, version 20211203, and the
 * Unprivileged ISA, version 20191213.
 */
module Isa {
  import opened Words

  datatype Mode = User | Supervisor

  /** The sstatus fields that can change (section 4.1.1). */
  datatype Status = Status(sie: bool, spie: bool, spp: Mode, sum: bool, mxr: bool)

  /** stvec (section 4.1.2): the base, a multiple of four, and the mode. */
  datatype TrapVector = TrapVector(base: Word, vectored: bool)

  /** satp (section 4.1.11) with the ASID fixed at 0; Bare mode keeps its PPN field. */
  datatype AddressSpace = AddressSpace(sv39: bool, ppn: nat)

  /** The nine supervisor CSRs; stip and stie are the timer bits of sip and sie. */
  datatype Csrs = Csrs(
    status: Status, stvec: TrapVector, sscratch: Word, sepc: Word, scause: Word, stval: Word,
    stip: bool, stie: bool, satp: AddressSpace)

  /** The integer registers; register 0 is hard-wired to zero. */
  type Regs = x: seq<Word> | |x| == 32 && x[0] == 0 witness seq(32, _ => 0)

  datatype Hart = Hart(mode: Mode, pc: Word, x: Regs, csrs: Csrs)

  // ---- the fields of a CSR's 64 bits, and the bits of its fields ----

  predicate Flag(v: Word, weight: int)
    requires weight > 0
  {
    (v / weight) % 2 == 1
  }

  function Bit(b: bool, weight: int): int { if b then weight else 0 }

  /** FS and XS always read as dirty (3) and SD as 1; every other field not in Status reads as 0. */
  const STATUS_FIXED: int := 0x8000_0000_0001_E000

  function StatusImage(s: Status): Word {
    STATUS_FIXED + Bit(s.sie, 0x2) + Bit(s.spie, 0x20) + Bit(s.spp == Supervisor, 0x100)
    + Bit(s.sum, 0x4_0000) + Bit(s.mxr, 0x8_0000)
  }

  function StatusFields(v: Word): Status {
    Status(Flag(v, 0x2), Flag(v, 0x20), if Flag(v, 0x100) then Supervisor else User,
           Flag(v, 0x4_0000), Flag(v, 0x8_0000))
  }

  function VectorImage(t: TrapVector): Word {
    Wrap(t.base + Bit(t.vectored, 1))
  }

  /** Modes 2 and 3 are reserved; writing one selects direct mode. */
  function VectorFields(v: Word): TrapVector {
    TrapVector(v - v % 4, v % 4 == 1)
  }

  function SpaceImage(s: AddressSpace): Word {
    Wrap(s.ppn + Bit(s.sv39, 0x8000_0000_0000_0000))
  }

  function SpaceFields(v: Word): AddressSpace {
    AddressSpace(v / 0x1000_0000_0000_0000 == 8, v % 0x1000_0000_0000)
  }

  function TimerImage(b: bool): Word { Bit(b, 0x20) }

  predicate TimerField(v: Word) { Flag(v, 0x20) }

  // ---- the nine CSRs ----

  datatype Csr = Sstatus | Sie | Stvec | Sscratch | Sepc | Scause | Stval | Sip | Satp

  function CsrAt(number: int): Option<Csr> {
    if number == 0x100 then Some(Sstatus)
    else if number == 0x104 then Some(Sie)
    else if number == 0x105 then Some(Stvec)
    else if number == 0x140 then Some(Sscratch)
    else if number == 0x141 then Some(Sepc)
    else if number == 0x142 then Some(Scause)
    else if number == 0x143 then Some(Stval)
    else if number == 0x144 then Some(Sip)
    else if number == 0x180 then Some(Satp)
    else None
  }

  function ReadCsr(s: Csrs, c: Csr): Word {
    match c
    case Sstatus => StatusImage(s.status)
    case Sie => TimerImage(s.stie)
    case Stvec => VectorImage(s.stvec)
    case Sscratch => s.sscratch
    case Sepc => s.sepc
    case Scause => s.scause
    case Stval => s.stval
    case Sip => TimerImage(s.stip)
    case Satp => SpaceImage(s.satp)
  }

  /** satp accepts Bare (0) and Sv39 (8); a write selecting another mode has no effect. */
  predicate SatpModeSupported(v: Word) {
    v / 0x1000_0000_0000_0000 == 0 || v / 0x1000_0000_0000_0000 == 8
  }

  function WriteCsr(s: Csrs, c: Csr, v: Word): Csrs {
    match c
    case Sstatus => s.(status := StatusFields(v))
    case Sie => s.(stie := TimerField(v))
    case Stvec => s.(stvec := VectorFields(v))
    case Sscratch => s.(sscratch := v)
    case Sepc => s.(sepc := v)
    case Scause => s.(scause := v)
    case Stval => s.(stval := v)
    case Sip => s.(stip := TimerField(v))
    case Satp => if SatpModeSupported(v) then s.(satp := SpaceFields(v)) else s
  }

  // ---- the instructions that trap when the guest kernel runs them natively ----

  datatype CsrOp = Swap | SetBits | ClearBits
  datatype Operand = FromReg(rs1: RegNumber) | Immediate(uimm: RegNumber)

  datatype Instr =
    | CsrAccess(op: CsrOp, csr: int, rd: RegNumber, src: Operand)
    | Sret
    | Wfi
    | SfenceVma

  function Funct3(code: int): int { (code / 0x1000) % 8 }

  function CsrOperand(code: int): Operand {
    var field := (code / 0x8000) % 32;
    if Funct3(code) >= 4 then Immediate(field) else FromReg(field)
  }

  /**
   * The encodings of the manuals' instruction listings: sret and wfi are single words, sfence.vma
   * leaves rs1 and rs2 (bits 24 to 15) free, and a CSR instruction is a SYSTEM instruction whose
   * funct3 is 1 to 3 (register operand) or 5 to 7 (immediate operand).
   */
  function Decode(code: int): Option<Instr> {
    if code == 0x1020_0073 then Some(Sret)
    else if code == 0x1050_0073 then Some(Wfi)
    else if 0x1200_0073 <= code < 0x1400_0073 && (code - 0x1200_0073) % 0x8000 == 0 then Some(SfenceVma)
    else if code % 0x80 == 0x73 && Funct3(code) % 4 != 0 then
      var op := if Funct3(code) % 4 == 1 then Swap else if Funct3(code) % 4 == 2 then SetBits else ClearBits;
      Some(CsrAccess(op, (code / 0x10_0000) % 4096, (code / 0x80) % 32, CsrOperand(code)))
    else None
  }

  function SetReg(x: Regs, rd: RegNumber, v: Word): Regs {
    if rd == 0 then x else x[rd := v]
  }

  function OperandValue(x: Regs, src: Operand): Word {
    match src
    case FromReg(rs1) => x[rs1]
    case Immediate(uimm) => uimm
  }

  /** Set and clear forms with rs1 = x0 or a zero immediate do not write the CSR at all. */
  predicate Writes(op: CsrOp, src: Operand) {
    op == Swap || (match src case FromReg(rs1) => rs1 != 0 case Immediate(uimm) => uimm != 0)
  }

  function Combine(op: CsrOp, before: Word, operand: Word): Word {
    match op
    case Swap => operand
    case SetBits => Or(before, operand)
    case ClearBits => AndNot(before, operand)
  }

  /** Section 9.1: read the CSR, write it if the instruction writes, put the old value in rd. */
  function AccessCsr(h: Hart, op: CsrOp, c: Csr, rd: RegNumber, src: Operand): Hart {
    var before := ReadCsr(h.csrs, c);
    var after :=
      if Writes(op, src) then WriteCsr(h.csrs, c, Combine(op, before, OperandValue(h.x, src))) else h.csrs;
    h.(csrs := after, x := SetReg(h.x, rd, before), pc := Wrap(h.pc + 4))
  }

  /** Section 3.1.6.1: leave the trap handler. */
  function ReturnFromTrap(h: Hart): Hart {
    var status := h.csrs.status;
    h.(mode := status.spp, pc := h.csrs.sepc,
       csrs := h.csrs.(status := status.(sie := status.spie, spie := true, spp := User)))
  }

  function Execute(h: Hart, i: Instr): Option<Hart> {
    match i
    case CsrAccess(op, csr, rd, src) =>
      if CsrAt(csr).None? then None else Some(AccessCsr(h, op, CsrAt(csr).value, rd, src))
    case Sret => Some(ReturnFromTrap(h))
    case Wfi => Some(h.(pc := Wrap(h.pc + 4)))
    case SfenceVma => Some(h.(pc := Wrap(h.pc + 4)))
  }

  // ---- traps and interrupts ----

  /** scause values from here on are interrupts; below is the code. */
  const INTERRUPT: int := 0x8000_0000_0000_0000

  /** Section 4.1.2: a vectored interrupt goes to base + 4 * code, everything else to base. */
  function TrapTarget(t: TrapVector, cause: Word): Word {
    if t.vectored && cause >= INTERRUPT then Wrap(t.base + 4 * (cause - INTERRUPT)) else t.base
  }

  /** Section 3.1.6.1: take a trap into S-mode. */
  function Trap(h: Hart, cause: Word, tval: Word): Hart {
    var status := h.csrs.status;
    h.(mode := Supervisor, pc := TrapTarget(h.csrs.stvec, cause),
       csrs := h.csrs.(sepc := h.pc, scause := cause, stval := tval,
                       status := status.(spp := h.mode, spie := status.sie, sie := false)))
  }

  /** Section 4.1.3: pending, enabled, and interrupts on (always on below S-mode). */
  predicate TimerInterruptReady(h: Hart) {
    h.csrs.stip && h.csrs.stie && (h.csrs.status.sie || h.mode == User)
  }

  const CAUSE_TIMER: Word := INTERRUPT + 5
  const CAUSE_ILLEGAL: Word := 2
  const CAUSE_ECALL_FROM_U: Word := 8
}
