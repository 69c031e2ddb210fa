/** What the emulator does about one page fault, against the Sv39 algorithm. */
module Faults {
  import opened Words
  import opened Memory
  import opened Bits
  import opened Isa
  import opened Sv39
  import opened HostVm
  import opened Machine
  import opened Walker
  import opened Effects

  function UseFor(access: Access): Use {
    match access case Fetch => ForExecute case Load => ForRead case Store => ForWrite
  }

  function AccessFor(use: Use): Access {
    match use case ForExecute => Fetch case ForRead => Load case ForWrite => Store
  }

  lemma FrameAddress(pa: int, va: int)
    requires InRam(pa) && pa % PAGE == va % PAGE
    ensures (pa - RAM_START) / PAGE * PAGE + va % PAGE == pa - RAM_START
  {
  }

  /** A page reaches the address its frame and the offset say. */
  lemma ReachesFrame(vm: HostVm, va: int, pa: int, pte: int, use: Use)
    requires IsUser(va) && InRam(pa) && pa % PAGE == va % PAGE
    requires PageOf(va) in vm && vm[PageOf(va)] == PageFor(pa, pte)
    ensures Reach(vm, va, use) == if Permits(pte, AccessFor(use)) then Some(pa - RAM_START) else None
  {
    FrameAddress(pa, va);
    hide PageOf, Readable, Writable, Executable;
  }

  lemma UserPage(va: int)
    requires IsUser(va)
    ensures 0 <= PageOf(va) < USER_END / PAGE
    ensures IsUser(PageAddress(va)) && PageOf(PageAddress(va)) == PageOf(va)
  {
  }

  /**
   * A fault on a user address whose page is free and that the algorithm translates to RAM maps
   * exactly one page, and the retried access then reaches exactly the translated byte.
   */
  lemma FaultIsServed(m: Machine, access: Access, va: Word, code: Code, pa: int)
    requires m.hart.csrs.satp.sv39 && IsUser(va) && PageOf(va) !in m.vm
    requires TranslateWith(false, m.ram, m.hart.csrs.satp, va, access) == Physical(pa) && InRam(pa)
    requires !IsSuperpage(RootWalk(false, m.ram, m.hart.csrs.satp, va))
    ensures var r := OnFault(m, access, va, code);
      && r.Next?
      && PageOf(va) in r.m.vm
      && r.m == m.(vm := m.vm[PageOf(va) := r.m.vm[PageOf(va)]])
      && Reach(r.m.vm, va, UseFor(access)) == Some(pa - RAM_START)
  {
    UserIsCanonical(va);
    UserPage(va);
    GrantsLikeSv39(m.ram, m.hart.csrs.satp, va, access, pa);
    LookupKeepsOffset(m.ram, m.hart.csrs.satp, va);
    hide LookUp, TranslateWith, RootWalk, IsSuperpage, Reach, PageAddress, PageOf, PtePpn, Permits, InRam;
    var pte := LookUp(m.ram, m.hart.csrs.satp, va).pte;
    var vm := m.vm[PageOf(va) := PageFor(pa, pte)];
    ReachesFrame(vm, va, pa, pte, UseFor(access));
  }

  /** Where the R/W/X algorithm faults without the reserved-bit check, it does so with it. */
  lemma StrictFaultsToo(ram: Ram, space: AddressSpace, va: int, access: Access)
    requires TranslateWith(false, ram, space, va, access) == PageFault
    ensures TranslateCore(ram, space, va, access) == PageFault
  {
    if space.sv39 && Canonical(va) {
      StrictRootWalk(ram, space, va);
      TranslateByWalk(true, ram, space, va, access);
      hide RootWalk, ReservedOnRootPath, TranslateWith;
    }
  }

  /** The emulator never reports a page fault that the R/W/X algorithm does not raise, for any address at all. */
  lemma NoSpuriousPageFault(m: Machine, access: Access, va: Word, code: Code)
    requires OnFault(m, access, va, code).Next? && |OnFault(m, access, va, code).m.log| > |m.log|
    ensures m.hart.csrs.satp.sv39
    ensures TranslateCore(m.ram, m.hart.csrs.satp, va, access) == PageFault
    ensures OnFault(m, access, va, code).m == TakeTrap(m, FaultCause(access), va)
    ensures PageFaultEntered(m, OnFault(m, access, va, code).m, access, va)
  {
    TrapIsLenientFault(m, access, va, code);
    StrictFaultsToo(m.ram, m.hart.csrs.satp, va, access);
    PageFaultTraps(m, access, va);
    hide OnFault, TakeTrap, TranslateWith, PageFaultEntered;
  }

  lemma TrapIsLenientFault(m: Machine, access: Access, va: Word, code: Code)
    requires OnFault(m, access, va, code).Next? && |OnFault(m, access, va, code).m.log| > |m.log|
    ensures m.hart.csrs.satp.sv39
    ensures TranslateWith(false, m.ram, m.hart.csrs.satp, va, access) == PageFault
    ensures OnFault(m, access, va, code).m == TakeTrap(m, FaultCause(access), va)
  {
    NoLeafPermitsNothing(false, m.ram, RootTable(m.hart.csrs.satp), va, 2);
    DeviceTakesNoTrap(m, access, code);
    hide WalkFrom, TakeTrap, Misaligned, LeafAddress, OnDeviceFault;
  }

  lemma DeviceTakesNoTrap(m: Machine, access: Access, code: Code)
    ensures forall pa :: OnDeviceFault(m, access, pa, code).Next? ==> OnDeviceFault(m, access, pa, code).m.log == m.log
  {
    hide StoreSource, StoreData, Pread, Pwrite, StoreLength;
  }

  /** What the emulator can report: a failed sign check, no entry, or U-mode without permission for RAM. */
  predicate Reportable(m: Machine, access: Access, va: Word) {
    || !SignExtended39(va)
    || RootWalk(false, m.ram, m.hart.csrs.satp, va) == Invalid
    || (m.hart.mode == User && match LookUp(m.ram, m.hart.csrs.satp, va)
        case Found(pa, pte) => InRam(pa) && !Permits(pte, access)
        case _ => false)
  }

  lemma ReportableIsReported(m: Machine, access: Access, va: Word, code: Code)
    requires m.hart.csrs.satp.sv39 && Reportable(m, access, va)
    ensures OnFault(m, access, va, code) == Next(TakeTrap(m, FaultCause(access), va))
  {
    hide WalkFrom, TakeTrap, OnDeviceFault, SignExtended39, Permits, FillPage;
  }

  lemma ReportedIsReportable(m: Machine, access: Access, va: Word, code: Code)
    requires m.hart.csrs.satp.sv39
    requires OnFault(m, access, va, code).Next? && |OnFault(m, access, va, code).m.log| > |m.log|
    ensures Reportable(m, access, va)
  {
    DeviceTakesNoTrap(m, access, code);
    hide WalkFrom, OnDeviceFault, SignExtended39, Permits;
  }

  predicate Forbids(last: int, access: Access, va: Word) {
    (last / PermissionBit(access)) % 2 == 0
    && 0x8000_0000 <= PageNumber(last) * 0x1000 + va % 0x1000 < 0x8100_0000
  }

  /** The same by the bytes of RAM: a broken entry on the way, or a last one that forbids the access to U-mode. */
  ghost predicate FaultyPath(m: Machine, access: Access, va: Word) {
    var ppn := m.hart.csrs.satp.ppn;
    || !HighBitsAgree(va)
    || (exists p :: BreaksOff(m.ram, ppn, va, p))
    || (m.hart.mode == User && exists p :: LeadsDown(m.ram, ppn, va, p) && Forbids(p.last, access, va))
  }

  lemma ReportableByPath(m: Machine, access: Access, va: Word)
    requires m.hart.csrs.satp.sv39
    ensures Reportable(m, access, va) <==> FaultyPath(m, access, va)
  {
    var ppn := m.hart.csrs.satp.ppn;
    var found := LookUp(m.ram, m.hart.csrs.satp, va);
    forall p: Path | LeadsDown(m.ram, ppn, va, p) && HighBitsAgree(va)
      ensures LookUp(m.ram, m.hart.csrs.satp, va) == Found(PageNumber(p.last) * 0x1000 + va % 0x1000, p.last)
    {
      LookUpByPath(m.ram, ppn, va, PageNumber(p.last) * 0x1000 + va % 0x1000, p.last);
    }
    if found.Found? { LookUpByPath(m.ram, ppn, va, found.pa, found.pte); }
    LookUpByPath(m.ram, ppn, va, 0, 0);
    assert found == Unmapped <==> !SignExtended39(va) || RootWalk(false, m.ram, m.hart.csrs.satp, va) == Invalid;
    hide LookUp, RootWalk, LeadsDown, BreaksOff, HighBitsAgree, SignExtended39, PageNumber;
  }

  predicate ReportsPageFault(m: Machine, access: Access, va: Word, code: Code) {
    var r := OnFault(m, access, va, code);
    r.Next? && PageFaultEntered(m, r.m, access, va)
  }

  lemma ReportIsLogged(m: Machine, access: Access, va: Word, code: Code)
    requires ReportsPageFault(m, access, va, code)
    ensures OnFault(m, access, va, code).Next? && |OnFault(m, access, va, code).m.log| > |m.log|
  {
    hide OnFault;
  }

  /**
   * The page faults the emulator reports, with their cause and address, are exactly the reportable ones
   * of the R/W/X algorithm with the reserved-bit check, and exactly those that the entries in RAM call for.
   */
  lemma PageFaultIsReported(m: Machine, access: Access, va: Word, code: Code)
    requires m.hart.csrs.satp.sv39
    ensures ReportsPageFault(m, access, va, code)
      <==> TranslateCore(m.ram, m.hart.csrs.satp, va, access) == PageFault && Reportable(m, access, va)
    ensures ReportsPageFault(m, access, va, code) <==> FaultyPath(m, access, va)
    ensures ReportsPageFault(m, access, va, code)
      <==> OnFault(m, access, va, code) == Next(TakeTrap(m, FaultCause(access), va))
  {
    var r := OnFault(m, access, va, code);
    ReportableByPath(m, access, va);
    PageFaultTraps(m, access, va);
    TrapIsLogged(m, FaultCause(access), va);
    if Reportable(m, access, va) {
      ReportableIsReported(m, access, va, code);
      NoSpuriousPageFault(m, access, va, code);
    }
    if ReportsPageFault(m, access, va, code) {
      ReportIsLogged(m, access, va, code);
      NoSpuriousPageFault(m, access, va, code);
      ReportedIsReportable(m, access, va, code);
    }
    hide OnFault, TakeTrap, FaultCause, TranslateCore, Reportable, FaultyPath, TrapEntered;
  }

  lemma TrapIsLogged(m: Machine, cause: Word, tval: Word)
    ensures |TakeTrap(m, cause, tval).log| > |m.log|
  {
    hide Trap;
  }

  /** A store to a read-only page in S-mode: a page fault by the algorithm, the emulator stops. */
  lemma SupervisorPermissionFaultStops(m: Machine, code: Code)
    requires m.ram == TinyRam(0, 0x03) && m.hart.csrs.satp == TINY_SPACE && m.hart.mode == Supervisor
    ensures TranslateCore(m.ram, m.hart.csrs.satp, LOW_VA, Store) == PageFault
    ensures OnFault(m, Store, LOW_VA, code) == Halt
  {
    TinyFaults(0x03, LOW_VA, Store);
    TinyLookup(0, 0x03, LOW_VA);
    PageEntry(0x03);
    assert InRam(RAM_START);
    hide TinyRam, LookUp, PagePte, Writable, TranslateCore, FillPage;
  }

  lemma TinyFaults(flags: Byte, va: Word, access: Access)
    requires va == LOW_VA && flags == 0x03 && access == Store
    ensures TranslateCore(TinyRam(0, flags), TINY_SPACE, va, access) == PageFault
  {
    TinyWalk(0, flags, va);
    PageEntry(flags);
    hide TinyRam, WalkFrom, PagePte, Writable, Misaligned, LeafAddress;
    assert TranslateWith(false, TinyRam(0, flags), TINY_SPACE, va, access) == PageFault;
    StrictFaultsToo(TinyRam(0, flags), TINY_SPACE, va, access);
  }

  /** An address whose bit 38 is wrong: a page fault by the algorithm, the emulator stops. */
  lemma WrongSignStops(m: Machine, code: Code)
    requires m.ram == TinyRam(0, 0x0F) && m.hart.csrs.satp == TINY_SPACE
    ensures TranslateCore(m.ram, m.hart.csrs.satp, HIGH_VA, Load) == PageFault
    ensures OnFault(m, Load, HIGH_VA, code) == Halt
  {
    assert !Canonical(HIGH_VA) && !IsUser(HIGH_VA);
    TinyGrant(0, 0x0F, HIGH_VA, Load);
    HighAddressIsNeverMapped(m, Load, HIGH_VA, code);
    hide TinyRam, Grants, OnFault, Canonical, WalkFrom;
  }

  lemma HighPage(va: Word)
    requires !IsUser(va)
    ensures !IsUser(PageAddress(va))
  {
  }

  lemma DeviceMapsNothing(m: Machine, access: Access, code: Code)
    ensures forall pa :: OnDeviceFault(m, access, pa, code).Next? ==> OnDeviceFault(m, access, pa, code).m.vm == m.vm
  {
    hide StoreSource, StoreData, Pread, Pwrite, StoreLength;
  }

  /**
   * An address whose bit 38 is wrong passes the sign check, but nothing above user space is ever
   * mapped: where the walk would grant RAM, the emulator stops.
   */
  lemma HighAddressIsNeverMapped(m: Machine, access: Access, va: Word, code: Code)
    requires !IsUser(va)
    ensures OnFault(m, access, va, code).Next? ==> OnFault(m, access, va, code).m.vm == m.vm
    ensures Grants(m.ram, m.hart.csrs.satp, va, access).Some? ==> OnFault(m, access, va, code) == Halt
  {
    HighPage(va);
    DeviceMapsNothing(m, access, code);
    hide LookUp, Trap, OnDeviceFault, Permits, PageAddress;
  }

  /** A fault that the walk grants is served exactly when its page is a free user page; else the emulator stops. */
  lemma GrantServedOnFreePage(m: Machine, access: Access, va: Word, code: Code)
    requires Grants(m.ram, m.hart.csrs.satp, va, access).Some?
    ensures OnFault(m, access, va, code).Next? <==> IsUser(va) && PageOf(va) !in m.vm
  {
    if IsUser(va) { UserPage(va); } else { HighPage(va); }
    hide LookUp, Permits, PageAddress, PageOf, PageFor;
  }

  /** The guest makes a mapped read-only page writable and stores to it without sfence.vma: the emulator stops. */
  lemma RaisedPermissionsStop(m: Machine, code: Code)
    requires m.ram == TinyRam(0, 0x0F) && m.hart.csrs.satp == TINY_SPACE
    requires PageOf(LOW_VA) in m.vm && m.vm[PageOf(LOW_VA)] == RamPage(0, true, false, false)
    ensures Grants(m.ram, m.hart.csrs.satp, LOW_VA, Store) == Some(RAM_START)
    ensures Reach(m.vm, LOW_VA, ForWrite).None?
    ensures OnFault(m, Store, LOW_VA, code) == Halt
  {
    TinyGrant(0, 0x0F, LOW_VA, Store);
    GrantServedOnFreePage(m, Store, LOW_VA, code);
    hide TinyRam, Grants, OnFault;
  }
}
