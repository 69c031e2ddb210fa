/** What one signal can change: the facts that runs are built from. */
module Signals {
  import opened Words
  import opened Bits
  import opened Isa
  import opened Sv39
  import opened HostVm
  import opened Machine
  import opened Walker
  import opened Effects
  import opened Faults

  function AccessOf(m: Machine, s: Signal): Access
    requires s.Fault?
  {
    Classify(s.va, m.hart.pc, s.code)
  }

  /** The signal is a fault that the walk grants a RAM page for. */
  predicate Fills(m: Machine, s: Signal) {
    s.Fault? && Grants(m.ram, m.hart.csrs.satp, s.va, AccessOf(m, s)).Some?
  }

  /** The page such a fault maps. */
  function FilledPage(m: Machine, s: Signal): HostPage
    requires Fills(m, s)
  {
    var found := LookUp(m.ram, m.hart.csrs.satp, s.va);
    PageFor(found.pa, found.pte)
  }

  /** A fill maps one free user page and changes nothing else. */
  lemma FillMapsOnePage(m: Machine, s: Signal)
    requires Fills(m, s) && Dispatch(m, s).Next?
    ensures IsUser(s.va) && PageOf(s.va) !in m.vm
    ensures PageOf(s.va) in Dispatch(m, s).m.vm
    ensures Dispatch(m, s).m == m.(vm := m.vm[PageOf(s.va) := FilledPage(m, s)])
  {
    if IsUser(s.va) { UserPage(s.va); } else { HighPage(s.va); }
    hide LookUp, Classify, PageFor, PageAddress, PageOf;
  }

  /** Every other signal leaves the mappings alone. */
  lemma OthersMapNothing(m: Machine, s: Signal)
    requires !Fills(m, s) && Dispatch(m, s).Next?
    ensures Dispatch(m, s).m.vm == m.vm
  {
    hide LookUp, Classify, PageFor, PageAddress, Permits, Decode, Execute, DropsTranslations, Pread, Pwrite;
    hide StoreSource, StoreLength, Trap;
  }

  lemma StubRangeStays(m: Machine, s: Signal)
    requires Dispatch(m, s).Next?
    ensures Dispatch(m, s).m.stub == m.stub
  {
    hide LookUp, Classify, PageFor, PageAddress, Permits, Decode, Execute, DropsTranslations, Pread, Pwrite;
    hide StoreSource, StoreLength, Trap;
  }

  // ---- what makes a flush due ----

  predicate SameContext(m: Machine, m1: Machine) {
    m.hart.mode == m1.hart.mode && m.hart.csrs.satp == m1.hart.csrs.satp
  }

  lemma ExecuteContext(h: Hart, i: Instr)
    requires h.mode == Supervisor && Execute(h, i).Some? && !DropsTranslations(h, i)
    ensures Execute(h, i).value.mode == h.mode && Execute(h, i).value.csrs.satp == h.csrs.satp
  {
    hide SatpModeSupported, Combine, StatusFields, VectorFields, TimerField, SpaceFields;
  }

  lemma PrivilegedContext(m: Machine, code: Code)
    requires m.hart.mode == Supervisor && OnPrivileged(m, code).Next?
    ensures OnPrivileged(m, code).m.flushPending || SameContext(m, OnPrivileged(m, code).m)
    ensures m.flushPending ==> OnPrivileged(m, code).m.flushPending
  {
    var i := Decode(code).value;
    if !DropsTranslations(m.hart, i) { ExecuteContext(m.hart, i); }
    hide Decode, Execute, DropsTranslations;
  }

  /** Changing the mode or satp makes a flush due. */
  lemma ContextChangesFlush(m: Machine, s: Signal)
    requires Dispatch(m, s).Next?
    ensures Dispatch(m, s).m.flushPending || SameContext(m, Dispatch(m, s).m)
  {
    if s.IllegalInstruction? && m.hart.mode == Supervisor { PrivilegedContext(m, s.code); }
    hide LookUp, Classify, PageFor, PageAddress, Permits, OnPrivileged, Pread, Pwrite, StoreSource, StoreLength, Trap;
  }

  // ---- traps and interrupts ----

  /** m1 has taken exactly one trap more than m, and its CSRs describe it. */
  predicate Trapped(m: Machine, m1: Machine) {
    && m1.log == m.log + [TrapRecord(m1.hart.csrs.sepc, m1.hart.csrs.status.spp, m1.hart.csrs.scause)]
    && m1.hart.mode == Supervisor && !m1.hart.csrs.status.sie
    && m1.hart.pc == TrapTarget(m1.hart.csrs.stvec, m1.hart.csrs.scause)
  }

  lemma DispatchTrapsAtMostOnce(m: Machine, s: Signal)
    requires Dispatch(m, s).Next?
    ensures Dispatch(m, s).m.log == m.log || Trapped(m, Dispatch(m, s).m)
  {
    hide LookUp, Classify, PageFor, PageAddress, Permits, Decode, Execute, DropsTranslations, Pread, Pwrite;
    hide StoreSource, StoreLength, TrapTarget;
  }

  /** Where the guest would go on if no interrupt were taken. */
  function ResumePc(m: Machine, s: Signal): Word
    requires Dispatch(m, s).Next?
  {
    Dispatch(m, s).m.hart.pc
  }

  /**
   * A signal enters at most one trap. An interrupt is taken only when the signal itself entered
   * none, and its sepc is the pc at which the guest would otherwise have resumed.
   */
  lemma AtMostOneTrap(m: Machine, s: Signal)
    requires Handle(m, s).Next?
    ensures var m1, h := Handle(m, s).m, Dispatch(m, s).m.hart;
      && (m1.log == m.log || Trapped(m, m1))
      && (h.csrs.stip && h.csrs.stie && (h.csrs.status.sie || h.mode == User) ==>
            Trapped(m, m1) && m1.hart.csrs.scause == 0x8000_0000_0000_0005 && m1.hart.csrs.sepc == ResumePc(m, s)
            && m1.hart.csrs.status.spp == h.mode)
  {
    DispatchTrapsAtMostOnce(m, s);
    hide Dispatch, TrapTarget, UnmapAround;
  }

  /** When the guest resumes no flush is due, and STIP, STIE and (SIE or U-mode) are not set together. */
  lemma NothingIsLeftPending(m: Machine, s: Signal)
    requires Handle(m, s).Next?
    ensures !Handle(m, s).m.flushPending
    ensures var h := Handle(m, s).m.hart;
      !(h.csrs.stip && h.csrs.stie && (h.csrs.status.sie || h.mode == User))
  {
    TimerTraps(Dispatch(m, s).m);
    hide Dispatch, TrapTarget, UnmapAround;
  }

  const SRET: Code := 0x1020_0073

  /** An interrupt that an emulated sret lets through records where, and to which mode, the sret returned. */
  lemma InterruptAfterSret(m: Machine)
    requires m.hart.mode == Supervisor && m.hart.csrs.stip && m.hart.csrs.stie
    requires m.hart.csrs.status.spie || m.hart.csrs.status.spp == User
    ensures var r, v := Handle(m, IllegalInstruction(SRET)), m.hart.csrs.stvec;
      && r.Next?
      && r.m.log == m.log + [TrapRecord(m.hart.csrs.sepc, m.hart.csrs.status.spp, 0x8000_0000_0000_0005)]
      && r.m.hart.csrs.sepc == m.hart.csrs.sepc && r.m.hart.csrs.status.spp == m.hart.csrs.status.spp
      && r.m.hart.csrs.scause == 0x8000_0000_0000_0005
      && r.m.hart.pc == if v.vectored then (v.base + 20) % 0x1_0000_0000_0000_0000 else v.base
  {
    SretReturns(m);
    TimerTraps(Dispatch(m, IllegalInstruction(SRET)).m);
    hide Dispatch, DeliverInterrupt, UnmapAround;
  }

  // ---- the timer ----

  /** A 64-bit timer delay is the true one exactly when the deadline is ahead and the product fits. */
  lemma DelayIsExact(deadline: Word, now: Word)
    ensures TimerDelay(deadline, now) == (deadline - now) * 1000 <==> 0 <= (deadline - now) * 1000 < TWO_64
  {
  }

  /** A deadline 2^64 / 1000 ticks ahead would go off after 384 nanoseconds. */
  lemma DelayCanWrap()
    ensures TimerDelay(18_446_744_073_709_552, 0) == 384
  {
  }

  /** The timer is armed to go off d nanoseconds after it was set. */
  predicate ArmedFor(t: Timer, d: int) {
    t.Armed? && t.seconds * BILLION + t.nanoseconds == d && 0 <= t.nanoseconds < BILLION
  }

  lemma TimerForDelay(d: int)
    requires d > 0
    ensures ArmedFor(TimerFor(d), d)
  {
  }
}
