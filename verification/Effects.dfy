/**
 * What each signal does to the machine, field by field and with the manuals' numbers: cause codes, the pc
 * that a trap records, the registers that a call changes.
 */
module Effects {
  import opened Words
  import opened Memory
  import opened Bits
  import opened Isa
  import opened Sv39
  import opened HostVm
  import opened Machine
  import opened Walker

  // ---- boot ----

  /** The kernel starts at 0x8020_0000 in S-mode with every CSR clear, and sees RAM at 0x8000_0000 to 0x8100_0000. */
  lemma BootState(m: Machine)
    requires Booted(m)
    ensures m.hart.mode == Supervisor && m.hart.pc == 0x8020_0000 && m.timer == Disarmed && !m.flushPending
    ensures m.hart.csrs == Csrs(Status(false, false, User, false, false), TrapVector(0, false), 0, 0, 0, 0,
                                false, false, AddressSpace(false, 0))
    ensures forall p :: p in m.vm && !(m.stub.start <= p * 0x1000 < m.stub.end) ==>
      0x8_0000 <= p < 0x8_1000 && m.vm[p] == RamPage(p - 0x8_0000, true, true, true)
  {
  }

  // ---- traps ----

  /** m1 is m after a trap: the CSRs record it, SPP and SPIE keep the mode and SIE, and a flush is due. */
  predicate TrapEntered(m: Machine, m1: Machine, x: Regs, sepc: Word, scause: Word, stval: Word, target: Word) {
    var s := m.hart.csrs;
    && m1.hart.mode == Supervisor && m1.hart.pc == target && m1.hart.x == x
    && m1.hart.csrs.sepc == sepc && m1.hart.csrs.scause == scause && m1.hart.csrs.stval == stval
    && m1.hart.csrs.status == Status(false, s.status.sie, m.hart.mode, s.status.sum, s.status.mxr)
    && m1.hart.csrs == s.(status := m1.hart.csrs.status, sepc := sepc, scause := scause, stval := stval)
    && m1 == m.(hart := m1.hart, flushPending := true, log := m.log + [TrapRecord(sepc, m.hart.mode, scause)])
  }

  /** A page fault: 12 for a fetch, 13 for a load and 15 for a store, with the address in stval. */
  predicate PageFaultEntered(m: Machine, m1: Machine, access: Access, va: Word) {
    TrapEntered(m, m1, m.hart.x, m.hart.pc, if access.Fetch? then 12 else if access.Load? then 13 else 15, va,
                m.hart.csrs.stvec.base)
  }

  lemma PageFaultTraps(m: Machine, access: Access, va: Word)
    ensures PageFaultEntered(m, TakeTrap(m, FaultCause(access), va), access, va)
  {
  }

  /** An instruction that U-mode may not execute: cause 2, stval 0. */
  lemma IllegalInstructionTraps(m: Machine, code: Code)
    requires m.hart.mode == User
    ensures var r := Dispatch(m, IllegalInstruction(code));
      r.Next? && TrapEntered(m, r.m, m.hart.x, m.hart.pc, 2, 0, m.hart.csrs.stvec.base)
  {
    hide Decode, Execute;
  }

  /** An ecall from U-mode: cause 8 at the ecall's own address, which is 4 below the pc that the signal reports. */
  predicate UserEcallEntered(m: Machine, m1: Machine, number: Word) {
    TrapEntered(m, m1, m.hart.x[17 := number], (m.hart.pc - 4) % 0x1_0000_0000_0000_0000, 8, 0, m.hart.csrs.stvec.base)
  }

  lemma UserEcallTraps(m: Machine, number: Word, time: Word, console: Option<Word>)
    requires m.hart.mode == User
    ensures var r := OnEcall(m, number, time, console); r.Next? && UserEcallEntered(m, r.m, number)
    ensures Dispatch(m, Ecall(number, time, console)) == OnEcall(m, number, time, console)
  {
  }

  // ---- interrupts ----

  /** The timer interrupt: cause 2^63 + 5, at the pc the guest would have resumed at. */
  predicate TimerEntered(m: Machine, m1: Machine) {
    var v := m.hart.csrs.stvec;
    TrapEntered(m, m1, m.hart.x, m.hart.pc, 0x8000_0000_0000_0005, 0,
                if v.vectored then (v.base + 20) % 0x1_0000_0000_0000_0000 else v.base)
  }

  /** It is taken exactly when STIP and STIE are set and SIE is set or the mode is U; else nothing changes. */
  lemma TimerTraps(m: Machine)
    ensures
      if m.hart.csrs.stip && m.hart.csrs.stie && (m.hart.csrs.status.sie || m.hart.mode == User) then
        TimerEntered(m, DeliverInterrupt(m))
      else DeliverInterrupt(m) == m
  {
  }

  // ---- the timer's signal and the SBI calls ----

  /** SIGALRM makes the interrupt pending; an expired timer is no longer armed. */
  lemma AlarmPends(m: Machine, expired: bool)
    ensures Dispatch(m, Alarm(expired))
      == Next(m.(hart := m.hart.(csrs := m.hart.csrs.(stip := true)), timer := if expired then Disarmed else m.timer))
  {
  }

  /** A signal that takes a trap resumes the guest at the trap, with interrupts masked and the flush done. */
  lemma TrapIsHandled(m: Machine, s: Signal, x: Regs, sepc: Word, scause: Word, stval: Word, target: Word)
    requires Dispatch(m, s).Next? && TrapEntered(m, Dispatch(m, s).m, x, sepc, scause, stval, target)
    ensures var r, m1 := Handle(m, s), Dispatch(m, s).m;
      r == Next(m1.(flushPending := false, vm := UnmapAround(m.vm, m.stub)))
  {
    TimerTraps(Dispatch(m, s).m);
    hide Dispatch, DeliverInterrupt, UnmapAround;
  }

  /** An alarm in U-mode with the timer interrupt enabled preempts the program, whatever SIE is. */
  lemma AlarmPreemptsUser(m: Machine, expired: bool)
    requires m.hart.mode == User && m.hart.csrs.stie
    ensures var r := Handle(m, Alarm(expired));
      && r.Next? && r.m.hart.mode == Supervisor && r.m.hart.x == m.hart.x
      && r.m.hart.csrs.scause == 0x8000_0000_0000_0005 && r.m.hart.csrs.sepc == m.hart.pc
      && r.m.hart.csrs.status.spp == User && r.m.hart.csrs.status.spie == m.hart.csrs.status.sie
  {
    AlarmPends(m, expired);
    TimerTraps(Dispatch(m, Alarm(expired)).m);
    hide Dispatch, DeliverInterrupt, UnmapAround;
  }

  predicate CallFails(number: Word, console: Option<Word>) { number == 8 || (number == 2 && console.None?) }

  /** 0 from set_timer and console_putchar, the character from console_getchar, -2 from anything else. */
  function CallResult(number: Word, console: Option<Word>): Word {
    if number == 0 || number == 1 then 0
    else if number == 2 && console.Some? then console.value
    else 0xFFFF_FFFF_FFFF_FFFE
  }

  /** The Linux timer that set_timer sets: off for a delay of 0, else seconds and nanoseconds of the delay. */
  function TimerAfterCall(deadline: Word, time: Word): Timer {
    var delay := (((deadline - time) % 0x1_0000_0000_0000_0000) * 1000) % 0x1_0000_0000_0000_0000;
    if delay == 0 then Disarmed else Armed(delay / 1_000_000_000, delay % 1_000_000_000)
  }

  /**
   * After an ecall from S-mode a0 holds the call's result and a7 the number; set_timer also sets the timer and
   * makes the interrupt pending exactly for a deadline that is not ahead. pc and everything else stay.
   */
  function AfterCall(m: Machine, number: Word, time: Word, console: Option<Word>): Machine {
    var x := m.hart.x[17 := number][10 := CallResult(number, console)];
    if number != 0 then m.(hart := m.hart.(x := x))
    else m.(hart := m.hart.(x := x, csrs := m.hart.csrs.(stip := m.hart.x[10] <= time)),
            timer := TimerAfterCall(m.hart.x[10], time))
  }

  lemma SupervisorEcallReturns(m: Machine, number: Word, time: Word, console: Option<Word>)
    requires m.hart.mode == Supervisor
    ensures OnEcall(m, number, time, console)
      == if CallFails(number, console) then Halt else Next(AfterCall(m, number, time, console))
    ensures Dispatch(m, Ecall(number, time, console)) == OnEcall(m, number, time, console)
  {
    assert SetReg(m.hart.x, A7, number)[A0] == m.hart.x[10];
    assert TimerFor(TimerDelay(m.hart.x[10], time)) == TimerAfterCall(m.hart.x[10], time);
    hide TimerFor, TimerDelay, TimerAfterCall;
  }

  /** An ecall in either mode. */
  predicate EcallActs(m: Machine, r: Outcome, number: Word, time: Word, console: Option<Word>) {
    if m.hart.mode == User then r.Next? && UserEcallEntered(m, r.m, number)
    else r == if CallFails(number, console) then Halt else Next(AfterCall(m, number, time, console))
  }

  lemma EcallEffect(m: Machine, number: Word, time: Word, console: Option<Word>)
    ensures EcallActs(m, OnEcall(m, number, time, console), number, time, console)
  {
    if m.hart.mode == User { UserEcallTraps(m, number, time, console); }
    else { SupervisorEcallReturns(m, number, time, console); }
    hide OnEcall, UserEcallEntered, AfterCall, CallFails;
  }

  // ---- wfi, sfence.vma and sret ----

  /** wfi goes on at the next instruction. */
  lemma WfiAdvances(m: Machine)
    requires m.hart.mode == Supervisor
    ensures Dispatch(m, IllegalInstruction(0x1050_0073))
      == Next(m.(hart := m.hart.(pc := (m.hart.pc + 4) % 0x1_0000_0000_0000_0000)))
  {
  }

  /** sfence.vma, for any rs1 and rs2, goes on at the next instruction and makes a flush due. */
  lemma FenceFlushes(m: Machine, rs1: RegNumber, rs2: RegNumber)
    requires m.hart.mode == Supervisor
    ensures Dispatch(m, IllegalInstruction(0x1200_0073 + 0x8000 * rs1 + 0x10_0000 * rs2))
      == Next(m.(hart := m.hart.(pc := (m.hart.pc + 4) % 0x1_0000_0000_0000_0000), flushPending := true))
  {
    var code := 0x1200_0073 + 0x8000 * rs1 + 0x10_0000 * rs2;
    assert (code - 0x1200_0073) % 0x8000 == 0;
    assert Decode(code) == Some(SfenceVma);
    hide Decode;
  }

  /** sret goes to sepc in the mode SPP; SIE gets SPIE, which becomes 1, SPP becomes U, and U-mode needs a flush. */
  lemma SretReturns(m: Machine)
    requires m.hart.mode == Supervisor
    ensures var s := m.hart.csrs.status;
      Dispatch(m, IllegalInstruction(0x1020_0073))
      == Next(m.(hart := Hart(s.spp, m.hart.csrs.sepc, m.hart.x,
                              m.hart.csrs.(status := Status(s.spie, true, User, s.sum, s.mxr))),
                 flushPending := m.flushPending || s.spp == User))
  {
  }

  // ---- faults ----

  /** An access that three entries grant on a free user page maps it: frame, R, W and X come from the last entry. */
  lemma GrantedAccessMaps(m: Machine, access: Access, va: Word, code: Code, p: Path, pa: int)
    requires m.hart.csrs.satp.sv39 && 0 <= va < 0x40_0000_0000 && va / 0x1000 !in m.vm
    requires LeadsDown(m.ram, m.hart.csrs.satp.ppn, va, p) && AllowsAt(p.last, access, va, pa)
    requires 0x8000_0000 <= pa < 0x8100_0000
    ensures OnFault(m, access, va, code) == Next(m.(vm := m.vm[va / 0x1000 :=
      RamPage((pa - 0x8000_0000) / 0x1000, (p.last / 2) % 2 == 1, (p.last / 4) % 2 == 1, (p.last / 8) % 2 == 1)]))
  {
    LookUpByPath(m.ram, m.hart.csrs.satp.ppn, va, pa, p.last);
    UserAddress(va);
    PageBits(pa, p.last);
    hide LeadsDown, LookUp, PageAddress, PageFor, HighBitsAgree, PageNumber;
  }

  lemma PageBits(pa: int, pte: int)
    requires 0x8000_0000 <= pa < 0x8100_0000
    ensures InRam(pa) && PageFor(pa, pte)
      == RamPage((pa - 0x8000_0000) / 0x1000, (pte / 2) % 2 == 1, (pte / 4) % 2 == 1, (pte / 8) % 2 == 1)
  {
  }

  lemma UserAddress(va: Word)
    requires 0 <= va < 0x40_0000_0000
    ensures HighBitsAgree(va) && IsUser(va) && PageOf(va) == va / 0x1000
    ensures IsUser(PageAddress(va)) && PageOf(PageAddress(va)) == va / 0x1000
  {
  }

  /** An address whose high bits differ, or with a broken entry on its path, is a page fault in every mode. */
  lemma BrokenPathFaults(m: Machine, access: Access, va: Word, code: Code, p: Path)
    requires m.hart.csrs.satp.sv39
    requires !HighBitsAgree(va) || BreaksOff(m.ram, m.hart.csrs.satp.ppn, va, p)
    ensures var r := OnFault(m, access, va, code); r.Next? && PageFaultEntered(m, r.m, access, va)
  {
    LookUpByPath(m.ram, m.hart.csrs.satp.ppn, va, 0, 0);
    PageFaultTraps(m, access, va);
    hide LookUp, HighBitsAgree, BreaksOff, TakeTrap, FaultCause;
  }

  /** In U-mode so is a RAM page whose last entry lacks the access's permission bit; S-mode stops. */
  lemma ForbiddenAccessFaults(m: Machine, access: Access, va: Word, code: Code, p: Path, pa: int)
    requires m.hart.csrs.satp.sv39 && HighBitsAgree(va)
    requires LeadsDown(m.ram, m.hart.csrs.satp.ppn, va, p) && (p.last / PermissionBit(access)) % 2 == 0
    requires pa == PageNumber(p.last) * 0x1000 + va % 0x1000 && 0x8000_0000 <= pa < 0x8100_0000
    ensures var r := OnFault(m, access, va, code);
      if m.hart.mode == User then r.Next? && PageFaultEntered(m, r.m, access, va) else r.Halt?
  {
    LookUpByPath(m.ram, m.hart.csrs.satp.ppn, va, pa, p.last);
    PageFaultTraps(m, access, va);
    hide LookUp, HighBitsAgree, LeadsDown, TakeTrap, FaultCause, FillPage, PageFor;
  }

  // ---- device stores ----

  /** Stores to the block device: a command at 0x1040_0000, the block's number at ...08, the buffer at ...10. */
  lemma DeviceStores(m: Machine, data: Word, offset: int)
    requires offset == (512 * m.blockId) % 0x1_0000_0000_0000_0000
    ensures DeviceStore(m, 0x1040_0008, data) == Next(m.(blockId := data))
    ensures DeviceStore(m, 0x1040_0010, data) == Next(m.(blockBuf := data))
    ensures DeviceStore(m, 0x1040_0000, data) ==
      if data == 1 then Next(m.(ram := Pread(m.ram, m.vm, m.blockBuf, m.file, offset)))
      else if data == 2 then Next(m.(file := Pwrite(m.ram, m.vm, m.blockBuf, m.file, offset)))
      else Halt
    ensures forall pa :: pa !in {0x1040_0000, 0x1040_0008, 0x1040_0010} ==> DeviceStore(m, pa, data) == Halt
  {
  }

  /** The machine after sd or c.sd: the store's effect, and pc behind the instruction. */
  lemma DeviceStoreInstruction(m: Machine, pa: int, code: Code, rs2: RegNumber)
    requires StoreSource(code) == Some(rs2)
    ensures var r := DeviceStore(m, pa, if rs2 == 0 then m.hart.pc else m.hart.x[rs2]);
      OnDeviceFault(m, Store, pa, code) ==
        if r.Halt? then Halt
        else Next(r.m.(hart := m.hart.(pc :=
          (m.hart.pc + if code % 2 == 1 then 4 else 2) % 0x1_0000_0000_0000_0000)))
    ensures forall access :: access != Store ==> OnDeviceFault(m, access, pa, code) == Halt
  {
    hide StoreSource, Pread, Pwrite;
  }

  /** An address that three entries lead to outside RAM belongs to the device, whatever their permissions. */
  lemma DeviceAddressFaults(m: Machine, access: Access, va: Word, code: Code, p: Path, pa: int)
    requires m.hart.csrs.satp.sv39 && HighBitsAgree(va) && LeadsDown(m.ram, m.hart.csrs.satp.ppn, va, p)
    requires pa == PageNumber(p.last) * 0x1000 + va % 0x1000 && !(0x8000_0000 <= pa < 0x8100_0000)
    ensures OnFault(m, access, va, code) == OnDeviceFault(m, access, pa, code)
  {
    LookUpByPath(m.ram, m.hart.csrs.satp.ppn, va, pa, p.last);
    hide LookUp, HighBitsAgree, LeadsDown, OnDeviceFault;
  }
}
