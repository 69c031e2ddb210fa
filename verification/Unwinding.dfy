/**
 * Trap handlers in whole runs: a handler of the guest kernel that reads sepc and sstatus with csrr,
 * keeps the values, lets anything at all happen, writes both back with csrw and executes sret.
 */
module Unwinding {
  import opened Words
  import opened Memory
  import opened Bits
  import opened Isa
  import opened Sv39
  import opened HostVm
  import opened Machine
  import opened Faults
  import opened Signals
  import opened Runs
  import opened CsrLaws
  import NestedTraps

  // ---- the instructions, as the emulator carries them out ----

  /** csrr rd, csr */
  predicate ReadsCsr(code: Code, number: int, rd: RegNumber) {
    Decode(code) == Some(CsrAccess(SetBits, number, rd, FromReg(0)))
  }

  /** csrw csr, rs */
  predicate WritesCsr(code: Code, number: int, rs: RegNumber) {
    Decode(code) == Some(CsrAccess(Swap, number, 0, FromReg(rs)))
  }

  const SEPC: int := 0x141
  const SSTATUS: int := 0x100

  /** The register-to-register CSR moves of a handler are instructions that exist. */
  lemma HandlerInstructions()
    ensures ReadsCsr(0x1410_22F3, SEPC, 5) && ReadsCsr(0x1000_2373, SSTATUS, 6)
    ensures WritesCsr(0x1412_9073, SEPC, 5) && WritesCsr(0x1003_1073, SSTATUS, 6)
  {
  }

  lemma ReadResult(m: Machine, code: Code, number: int, c: Csr, rd: RegNumber)
    requires m.hart.mode == Supervisor && ReadsCsr(code, number, rd) && CsrAt(number) == Some(c)
    ensures Dispatch(m, IllegalInstruction(code))
      == Next(m.(hart := m.hart.(x := SetReg(m.hart.x, rd, ReadCsr(m.hart.csrs, c)), pc := Wrap(m.hart.pc + 4))))
  {
    hide Decode, ReadCsr, CsrAt, SatpModeSupported;
    assert !Writes(SetBits, FromReg(0));
  }

  lemma WriteResult(m: Machine, code: Code, number: int, c: Csr, rs: RegNumber)
    requires m.hart.mode == Supervisor && WritesCsr(code, number, rs) && CsrAt(number) == Some(c) && c != Satp
    ensures Dispatch(m, IllegalInstruction(code))
      == Next(m.(hart := m.hart.(csrs := WriteCsr(m.hart.csrs, c, m.hart.x[rs]), pc := Wrap(m.hart.pc + 4))))
  {
    hide Decode, ReadCsr, WriteCsr, CsrAt, SatpModeSupported;
  }

  lemma ReturnResult(m: Machine)
    requires m.hart.mode == Supervisor
    ensures Dispatch(m, IllegalInstruction(SRET)).Next?
    ensures Dispatch(m, IllegalInstruction(SRET)).m.hart == ReturnFromTrap(m.hart)
  {
  }

  /** Each operation of module NestedTraps is what a signal does to the hart. */
  lemma OperationsAreSignals(m: Machine, code: Code, number: int, c: Csr, rs: RegNumber, s: NestedTraps.State)
    requires m.hart.mode == Supervisor && s.hart == m.hart
    requires WritesCsr(code, number, rs) && CsrAt(number) == Some(c) && c != Satp
    ensures NestedTraps.Apply(NestedTraps.Return, s).value.hart == Dispatch(m, IllegalInstruction(SRET)).m.hart
    ensures forall cause, tval ::
      TakeTrap(m, cause, tval).hart == NestedTraps.Apply(NestedTraps.Take(cause, tval), s).value.hart
    ensures Dispatch(m, IllegalInstruction(code)).Next? && Dispatch(m, IllegalInstruction(code)).m.hart
      == NestedTraps.Apply(NestedTraps.Write(c, m.hart.x[rs]), s).value.hart.(pc := Wrap(m.hart.pc + 4))
  {
    ReturnResult(m);
    WriteResult(m, code, number, c, rs);
    hide Dispatch, WriteCsr, Decode, Trap;
  }

  // ---- steps without an interrupt ----

  lemma ReadStep(w: World, code: Code, number: int, c: Csr, rd: RegNumber)
    requires OneContext(w) && w.m.hart.mode == Supervisor
    requires ReadsCsr(code, number, rd) && CsrAt(number) == Some(c)
    ensures var v := Step(w, SignalArrives(IllegalInstruction(code)));
      v.Some? && v.value.m.hart
        == w.m.hart.(x := SetReg(w.m.hart.x, rd, ReadCsr(w.m.hart.csrs, c)), pc := Wrap(w.m.hart.pc + 4))
  {
    ReadResult(w.m, code, number, c, rd);
    QuietSignal(w, IllegalInstruction(code), Dispatch(w.m, IllegalInstruction(code)).m);
    hide Dispatch, Step, ReadsCsr, ReadCsr, CsrAt;
  }

  lemma WriteStep(w: World, code: Code, number: int, c: Csr, rs: RegNumber)
    requires OneContext(w) && w.m.hart.mode == Supervisor && c != Satp
    requires WritesCsr(code, number, rs) && CsrAt(number) == Some(c)
    requires !WriteCsr(w.m.hart.csrs, c, w.m.hart.x[rs]).status.sie
    ensures var v := Step(w, SignalArrives(IllegalInstruction(code)));
      v.Some? && v.value.m.hart
        == w.m.hart.(csrs := WriteCsr(w.m.hart.csrs, c, w.m.hart.x[rs]), pc := Wrap(w.m.hart.pc + 4))
  {
    WriteResult(w.m, code, number, c, rs);
    QuietSignal(w, IllegalInstruction(code), Dispatch(w.m, IllegalInstruction(code)).m);
    hide Dispatch, Step, WritesCsr, WriteCsr, CsrAt;
  }

  lemma {:induction false} ContextKept(w: World, events: seq<Event>, v: World)
    requires OneContext(w) && Run(w, events) == Some(v)
    ensures OneContext(v)
  {
    hide OneContext, Step;
    if events != [] {
      var last := |events| - 1;
      var u := Run(w, events[..last]).value;
      ContextKept(w, events[..last], u);
      OneContextStep(u, events[last]);
    }
  }

  // ---- a handler ----

  /** The code that saves the two CSRs in registers, and the code that writes them back from registers. */
  datatype Bracket = Bracket(
    readSepc: Code, toSepc: RegNumber, readStatus: Code, toStatus: RegNumber,
    writeSepc: Code, fromSepc: RegNumber, writeStatus: Code, fromStatus: RegNumber)

  predicate WellFormed(h: Bracket) {
    && ReadsCsr(h.readSepc, SEPC, h.toSepc) && ReadsCsr(h.readStatus, SSTATUS, h.toStatus)
    && WritesCsr(h.writeSepc, SEPC, h.fromSepc) && WritesCsr(h.writeStatus, SSTATUS, h.fromStatus)
    && h.toSepc != 0 && h.toStatus != 0 && h.toSepc != h.toStatus
  }

  function Executes(code: Code): Event { SignalArrives(IllegalInstruction(code)) }

  /** Whatever runs outside the saved section leaves the trap's CSRs and the mode alone. */
  predicate KeepsTrap(w: World, v: World) {
    && v.m.hart.mode == w.m.hart.mode
    && v.m.hart.csrs.sepc == w.m.hart.csrs.sepc
    && v.m.hart.csrs.status == w.m.hart.csrs.status
  }

  predicate Masked(w: World) { w.m.hart.mode == Supervisor && !w.m.hart.csrs.status.sie }

  lemma Saves(h: Bracket, w: World)
    requires WellFormed(h) && OneContext(w) && w.m.hart.mode == Supervisor
    ensures var v := Run(w, [Executes(h.readSepc), Executes(h.readStatus)]);
      && v.Some? && OneContext(v.value)
      && v.value.m.hart.mode == Supervisor && v.value.m.hart.csrs == w.m.hart.csrs
      && v.value.m.hart.x[h.toSepc] == w.m.hart.csrs.sepc
      && v.value.m.hart.x[h.toStatus] == StatusImage(w.m.hart.csrs.status)
  {
    var a, b := Executes(h.readSepc), Executes(h.readStatus);
    ReadStep(w, h.readSepc, SEPC, Sepc, h.toSepc);
    var u := Step(w, a).value;
    OneContextStep(w, a);
    ReadStep(u, h.readStatus, SSTATUS, Sstatus, h.toStatus);
    OneContextStep(u, b);
    TwoEvents(w, a, b);
    hide Step, Run, OneContext, ReadsCsr, WritesCsr, StatusImage;
  }

  lemma Restores(h: Bracket, w: World, status: Status)
    requires WellFormed(h) && OneContext(w) && Masked(w) && !status.sie
    requires w.m.hart.x[h.fromStatus] == StatusImage(status)
    ensures var v := Run(w, [Executes(h.writeSepc), Executes(h.writeStatus)]);
      && v.Some? && OneContext(v.value) && v.value.m.hart.mode == Supervisor
      && v.value.m.hart.csrs.sepc == w.m.hart.x[h.fromSepc] && v.value.m.hart.csrs.status == status
  {
    var a, b := Executes(h.writeSepc), Executes(h.writeStatus);
    StatusFieldsOfImage(status);
    WriteStep(w, h.writeSepc, SEPC, Sepc, h.fromSepc);
    var u := Step(w, a).value;
    OneContextStep(w, a);
    WriteStep(u, h.writeStatus, SSTATUS, Sstatus, h.fromStatus);
    OneContextStep(u, b);
    TwoEvents(w, a, b);
    hide Step, Run, OneContext, ReadsCsr, WritesCsr, StatusImage, StatusFields;
  }

  /**
   * The course of a handler: events before the save, anything at all (further traps and their handlers
   * included) after it, native code that puts the two saved values back into registers, and events
   * between the restore and sret.
   */
  datatype Course = Course(entry: seq<Event>, body: seq<Event>, pc: Word, x: Regs, ram: Ram, exit: seq<Event>)

  function AfterSave(h: Bracket, w: World): Option<World> {
    Run(w, [Executes(h.readSepc), Executes(h.readStatus)])
  }

  function AfterRestore(h: Bracket, w: World): Option<World> {
    Run(w, [Executes(h.writeSepc), Executes(h.writeStatus)])
  }

  /** From the world after the save to the one after the restore: the saved values are back, interrupts off. */
  predicate Resumes(h: Bracket, c: Course, saved: World, done: World) {
    && Run(saved, c.body) == Some(done) && Masked(done)
    && c.x[h.fromSepc] == saved.m.hart.x[h.toSepc] && c.x[h.fromStatus] == saved.m.hart.x[h.toStatus]
  }

  function Reloaded(c: Course, done: World): World {
    Step(done, GuestRuns(c.pc, c.x, c.ram)).value
  }

  /** The worlds at the ends of a handler's phases, up to the one in which it executes sret. */
  datatype Phases = Phases(entered: World, saved: World, done: World, restored: World, last: World)

  predicate Handles(h: Bracket, c: Course, w: World, p: Phases) {
    && Run(w, c.entry) == Some(p.entered) && KeepsTrap(w, p.entered)
    && AfterSave(h, p.entered) == Some(p.saved)
    && Resumes(h, c, p.saved, p.done)
    && AfterRestore(h, Reloaded(c, p.done)) == Some(p.restored)
    && Run(p.restored, c.exit) == Some(p.last) && KeepsTrap(p.restored, p.last)
  }

  lemma ReloadedFields(c: Course, done: World)
    requires OneContext(done) && Masked(done)
    ensures OneContext(Reloaded(c, done)) && Masked(Reloaded(c, done)) && Reloaded(c, done).m.hart.x == c.x
  {
    OneContextStep(done, GuestRuns(c.pc, c.x, c.ram));
    hide OneContext;
  }

  /** After the restore the CSRs are the trap's again. */
  lemma RestoresTrap(h: Bracket, c: Course, w: World, p: Phases)
    requires WellFormed(h) && OneContext(w) && Masked(w) && Handles(h, c, w, p)
    ensures OneContext(p.last) && p.last.m.hart.mode == Supervisor
    ensures p.last.m.hart.csrs.sepc == w.m.hart.csrs.sepc && p.last.m.hart.csrs.status == w.m.hart.csrs.status
  {
    hide Run, Step, OneContext, WellFormed, StatusImage, Reloaded;
    ContextKept(w, c.entry, p.entered);
    Saves(h, p.entered);
    ContextKept(p.saved, c.body, p.done);
    ReloadedFields(c, p.done);
    Restores(h, Reloaded(c, p.done), w.m.hart.csrs.status);
    ContextKept(p.restored, c.exit, p.last);
  }

  /**
   * A handler that runs its course in any run returns to where its trap came from: sret restores the
   * mode, pc and interrupt enable of the hart the trap interrupted, and sstatus is as before it except
   * SPIE = 1 and SPP = U.
   */
  lemma HandlerReturns(h: Bracket, c: Course, w: World, p: Phases, before: Hart, cause: Word, tval: Word)
    requires WellFormed(h) && OneContext(w) && Handles(h, c, w, p)
    requires w.m.hart == Trap(before, cause, tval)
    ensures var r := Dispatch(p.last.m, IllegalInstruction(SRET));
      && r.Next?
      && r.m.hart.mode == before.mode && r.m.hart.pc == before.pc
      && r.m.hart.csrs.status == before.csrs.status.(spie := true, spp := User)
  {
    assert Masked(w);
    RestoresTrap(h, c, w, p);
    ReturnResult(p.last.m);
    hide Dispatch, Handles, OneContext, WellFormed, TrapTarget;
  }

  // ---- every trap can be handled so ----

  /** csrr t0, sepc; csrr t1, sstatus; csrw sepc, t0; csrw sstatus, t1 */
  function PlainBracket(): Bracket {
    Bracket(0x1410_22F3, 5, 0x1000_2373, 6, 0x1412_9073, 5, 0x1003_1073, 6)
  }

  function PlainCourse(w: World): Course {
    Course([], [], 0, w.m.hart.x[5 := w.m.hart.csrs.sepc][6 := StatusImage(w.m.hart.csrs.status)], w.m.ram, [])
  }

  lemma NothingRuns(w: World)
    ensures Run(w, []) == Some(w) && KeepsTrap(w, w)
  {
  }

  /** From every world just trapped, the plain handler runs its course, so the theorem above applies. */
  lemma EveryTrapCanReturn(w: World, before: Hart, cause: Word, tval: Word)
    requires OneContext(w) && w.m.hart == Trap(before, cause, tval)
    ensures WellFormed(PlainBracket()) && exists p :: Handles(PlainBracket(), PlainCourse(w), w, p)
  {
    var h, c := PlainBracket(), PlainCourse(w);
    HandlerInstructions();
    assert Masked(w);
    hide OneContext, StatusImage, ReadsCsr, WritesCsr, TrapTarget, Run, Step;
    Saves(h, w);
    var saved := AfterSave(h, w).value;
    ReloadedFields(c, saved);
    Restores(h, Reloaded(c, saved), w.m.hart.csrs.status);
    var last := AfterRestore(h, Reloaded(c, saved)).value;
    NothingRuns(w);
    NothingRuns(saved);
    NothingRuns(last);
    assert Handles(h, c, w, Phases(w, saved, saved, last, last));
  }

  // ---- every trap is such a trap ----

  /** m1 is m with the hart trapped, and logged where from. */
  predicate TrapsHart(m: Machine, m1: Machine, before: Hart, cause: Word, tval: Word) {
    m1.hart == Trap(before, cause, tval) && m1.log == m.log + [TrapRecord(before.pc, before.mode, cause)]
  }

  lemma TakeTrapTraps(m: Machine, logged: Machine, cause: Word, tval: Word)
    requires m.log == logged.log
    ensures TrapsHart(logged, TakeTrap(m, cause, tval), m.hart, cause, tval)
  {
    hide Trap;
  }

  lemma FaultTraps(m: Machine, access: Access, va: Word, code: Code)
    requires OnFault(m, access, va, code).Next? && |OnFault(m, access, va, code).m.log| > |m.log|
    ensures TrapsHart(m, OnFault(m, access, va, code).m, m.hart, FaultCause(access), va)
  {
    NoSpuriousPageFault(m, access, va, code);
    TakeTrapTraps(m, m, FaultCause(access), va);
    hide OnFault, TakeTrap, TranslateCore, TrapsHart;
  }

  lemma EcallTraps(m: Machine, number: Word, time: Word, console: Option<Word>)
    requires OnEcall(m, number, time, console).Next? && |OnEcall(m, number, time, console).m.log| > |m.log|
    ensures exists before, cause, tval ::
      TrapsHart(m, OnEcall(m, number, time, console).m, before, cause, tval)
  {
    var m1 := m.(hart := m.hart.(x := SetReg(m.hart.x, A7, number)));
    if m.hart.mode == User {
      var m2 := m1.(hart := m1.hart.(pc := Wrap(m1.hart.pc - 4)));
      TakeTrapTraps(m2, m, CAUSE_ECALL_FROM_U, 0);
      hide TakeTrap, TrapsHart;
      assert OnEcall(m, number, time, console).m == TakeTrap(m2, CAUSE_ECALL_FROM_U, 0);
    } else {
      hide TimerFor, TimerDelay;
    }
  }

  lemma DispatchTrapsAHart(m: Machine, s: Signal)
    requires Dispatch(m, s).Next? && |Dispatch(m, s).m.log| > |m.log|
    ensures exists before, cause, tval :: TrapsHart(m, Dispatch(m, s).m, before, cause, tval)
  {
    hide OnFault, OnEcall, OnPrivileged, TakeTrap, TrapsHart, Classify;
    match s
    case Ecall(number, time, console) => EcallTraps(m, number, time, console);
    case Fault(va, code) => FaultTraps(m, Classify(va, m.hart.pc, code), va, code);
    case IllegalInstruction(code) =>
      PrivilegedTakesNoTrap(m, code);
      TakeTrapTraps(m, m, CAUSE_ILLEGAL, 0);
    case Alarm(_) =>
    case Other =>
  }

  lemma PrivilegedTakesNoTrap(m: Machine, code: Code)
    ensures OnPrivileged(m, code).Next? ==> OnPrivileged(m, code).m.log == m.log
  {
    hide Decode, Execute, DropsTranslations;
  }

  /** A signal that adds to the log leaves the hart just trapped, from the pc and mode that the log records. */
  lemma SignalsTrapAHart(m: Machine, s: Signal)
    requires Handle(m, s).Next? && |Handle(m, s).m.log| > |m.log|
    ensures exists before, cause, tval :: TrapsHart(m, Handle(m, s).m, before, cause, tval)
  {
    var m1 := Dispatch(m, s).m;
    var m2 := DeliverInterrupt(m1);
    FlushKeepsTrap(m2);
    DispatchTrapsAtMostOnce(m, s);
    hide Dispatch, Trap, UnmapAround, TrapTarget, Flush;
    if TimerInterruptReady(m1.hart) {
      InterruptTraps(m, m1);
      assert TrapsHart(m, Handle(m, s).m, m1.hart, CAUSE_TIMER, 0);
    } else {
      DispatchTrapsAHart(m, s);
      var before, cause, tval :| TrapsHart(m, m1, before, cause, tval);
      assert TrapsHart(m, Handle(m, s).m, before, cause, tval);
    }
  }

  lemma FlushKeepsTrap(m: Machine)
    ensures Flush(m).hart == m.hart && Flush(m).log == m.log
  {
    hide UnmapAround;
  }

  lemma InterruptTraps(m: Machine, m1: Machine)
    requires TimerInterruptReady(m1.hart) && m1.log == m.log
    ensures TrapsHart(m, DeliverInterrupt(m1), m1.hart, CAUSE_TIMER, 0)
  {
    hide Trap;
  }
}
