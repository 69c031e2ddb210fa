/**
 * The emulator against the whole translation algorithm: U, SUM, MXR, A and D included, none of which the
 * emulator looks at. Where the two agree, exactly, and inputs on which they do not.
 */
module Standard {
  import opened Words
  import opened Memory
  import opened Bits
  import opened Isa
  import opened Sv39
  import opened HostVm
  import opened Machine
  import opened Walker
  import opened Faults

  /** The entry that the emulator finds for an address passes the standard's permission and A/D steps. */
  predicate EntryAllowed(scheme: AdScheme, ram: Ram, space: AddressSpace, r: Rights, va: int, access: Access) {
    match LookUp(ram, space, va)
    case Found(_, pte) => Allowed(scheme, r, pte, access)
    case _ => false
  }

  function FoundAddress(ram: Ram, space: AddressSpace, va: int): Option<int> {
    match LookUp(ram, space, va)
    case Found(pa, _) => Some(pa)
    case _ => None
  }

  /** A pointer in last place allows nothing. */
  lemma PointerAllowsNothing(scheme: AdScheme, r: Rights, pte: int, access: Access)
    requires forall a: Access :: !Permits(pte, a)
    ensures !Allowed(scheme, r, pte, access)
  {
    assert !Permits(pte, Fetch) && !Permits(pte, Load) && !Permits(pte, Store);
    hide Readable, Writable, Executable, UserAccessible, UpToDate;
  }

  /**
   * For canonical addresses under Sv39 the standard translates to a RAM address in an ordinary page
   * exactly when the emulator's walk finds that address, no entry read has a reserved bit, and the entry
   * passes the full permission and A/D steps.
   */
  lemma TranslatesLikeStandard(
      scheme: AdScheme, ram: Ram, space: AddressSpace, r: Rights, va: int, access: Access, pa: int)
    requires space.sv39 && Canonical(va)
    ensures
      && Translate(scheme, ram, space, r, va, access) == Physical(pa)
      && InRam(pa)
      && !IsSuperpage(RootWalk(true, ram, space, va))
      <==>
      && !ReservedOnRootPath(ram, space, va)
      && FoundAddress(ram, space, va) == Some(pa)
      && InRam(pa)
      && EntryAllowed(scheme, ram, space, r, va, access)
  {
    StrictRootWalk(ram, space, va);
    NoLeafPermitsNothing(false, ram, RootTable(space), va, 2);
    var w := RootWalk(false, ram, space, va);
    if w.NoLeaf? { PointerAllowsNothing(scheme, r, w.pte, access); }
    if w.Leaf? { LowestLevelIsAligned(w.pte); }
    hide WalkFrom, Allowed, ReservedOnRootPath, Misaligned, Permits;
  }

  lemma ReadableOrMxr(scheme: AdScheme, r: Rights, pte: int, access: Access)
    requires Allowed(scheme, r, pte, access) && !Permits(pte, access)
    ensures access == Load && r.mxr && Executable(pte) && !Readable(pte)
  {
    hide Readable, Writable, Executable, UserAccessible, UpToDate;
  }

  /**
   * What the emulator grants, the standard grants exactly when no entry read has a reserved bit and the
   * entry passes the standard's checks.
   */
  lemma GrantedByEmulator(scheme: AdScheme, ram: Ram, space: AddressSpace, r: Rights, va: int, access: Access, pa: int)
    requires space.sv39 && Canonical(va) && Grants(ram, space, va, access) == Some(pa)
    ensures Translate(scheme, ram, space, r, va, access) == Physical(pa)
      <==> !ReservedOnRootPath(ram, space, va) && EntryAllowed(scheme, ram, space, r, va, access)
  {
    TranslatesLikeStandard(scheme, ram, space, r, va, access, pa);
    GrantsLikeSv39(ram, space, va, access, pa);
    StrictRootWalk(ram, space, va);
    hide LookUp, Translate, RootWalk, ReservedOnRootPath, EntryAllowed, TranslateWith, Permits;
  }

  /**
   * What the standard grants from RAM in an ordinary page, the emulator grants exactly unless it is a load
   * that only MXR makes readable.
   */
  lemma GrantedByStandard(scheme: AdScheme, ram: Ram, space: AddressSpace, r: Rights, va: int, access: Access, pa: int)
    requires space.sv39 && Canonical(va) && Translate(scheme, ram, space, r, va, access) == Physical(pa)
    requires InRam(pa) && !IsSuperpage(RootWalk(true, ram, space, va))
    ensures LookUp(ram, space, va).Found? && (Grants(ram, space, va, access) == Some(pa)
      <==> !(access == Load && r.mxr && !Readable(LookUp(ram, space, va).pte)))
  {
    TranslatesLikeStandard(scheme, ram, space, r, va, access, pa);
    var pte := LookUp(ram, space, va).pte;
    if !Permits(pte, access) { ReadableOrMxr(scheme, r, pte, access); }
    hide LookUp, Translate, RootWalk, ReservedOnRootPath, Allowed, Readable, Writable, Executable;
  }

  // ---- faults ----

  /** A load that the standard allows only because MXR makes an execute-only page readable. */
  predicate ReadableByMxr(scheme: AdScheme, m: Machine, access: Access, va: Word) {
    access == Load && m.hart.csrs.status.mxr && Canonical(va) &&
    match RootWalk(true, m.ram, m.hart.csrs.satp, va)
    case Leaf(level, pte) => level == 0 && !Readable(pte) && Allowed(scheme, RightsOf(m.hart), pte, Load)
    case _ => false
  }

  /** The standard's translation, from the walk. */
  lemma StandardByWalk(scheme: AdScheme, ram: Ram, space: AddressSpace, r: Rights, va: int, access: Access)
    requires space.sv39
    ensures Translate(scheme, ram, space, r, va, access) == PageFault <==>
      !Canonical(va) ||
      match RootWalk(true, ram, space, va)
      case OutsideRam => false
      case Leaf(level, pte) => level <= 2 && (!Allowed(scheme, r, pte, access) || Misaligned(level, pte))
      case _ => true
  {
    WalkLevel(true, ram, RootTable(space), va, 2);
    hide WalkFrom, Allowed, Misaligned, LeafAddress;
  }

  /** What a reportable fault of a canonical address can have found: nothing, or an ordinary page without permission. */
  lemma ReportedWalk(m: Machine, access: Access, va: Word)
    requires m.hart.csrs.satp.sv39 && Reportable(m, access, va)
    ensures Canonical(va) ==>
      match RootWalk(false, m.ram, m.hart.csrs.satp, va)
      case OutsideRam => false
      case Leaf(level, pte) => level == 0 && !Permits(pte, access)
      case _ => true
  {
    hide WalkFrom, Permits;
  }

  lemma ReportableAgainstStandard(scheme: AdScheme, m: Machine, access: Access, va: Word)
    requires m.hart.csrs.satp.sv39 && Reportable(m, access, va)
    ensures Translate(scheme, m.ram, m.hart.csrs.satp, RightsOf(m.hart), va, access) == PageFault
      <==> !ReadableByMxr(scheme, m, access, va)
  {
    var space := m.hart.csrs.satp;
    StandardByWalk(scheme, m.ram, space, RightsOf(m.hart), va, access);
    StrictRootWalk(m.ram, space, va);
    ReportedWalk(m, access, va);
    hide Translate, Reportable, ReservedOnRootPath, RootWalk, Misaligned, Allowed, Canonical, Permits, Readable;
    var w := RootWalk(true, m.ram, space, va);
    if w.Leaf? && Canonical(va) {
      LowestLevelIsAligned(w.pte);
      AllowedWithoutPermit(scheme, RightsOf(m.hart), w.pte, access);
    }
  }

  lemma AllowedWithoutPermit(scheme: AdScheme, r: Rights, pte: int, access: Access)
    requires !Permits(pte, access)
    ensures Allowed(scheme, r, pte, access) <==>
      access == Load && r.mxr && !Readable(pte) && Allowed(scheme, r, pte, Load)
  {
    if Allowed(scheme, r, pte, access) { ReadableOrMxr(scheme, r, pte, access); }
    hide Readable, Writable, Executable, UserAccessible, UpToDate;
  }

  /**
   * A page fault that the emulator raises is one of the standard exactly unless it is a load that MXR
   * makes readable.
   */
  lemma ReportedFaultAgainstStandard(scheme: AdScheme, m: Machine, access: Access, va: Word, code: Code)
    requires ReportsPageFault(m, access, va, code)
    ensures Translate(scheme, m.ram, m.hart.csrs.satp, RightsOf(m.hart), va, access) == PageFault
      <==> !ReadableByMxr(scheme, m, access, va)
  {
    hide *;
    ReportIsLogged(m, access, va, code);
    NoSpuriousPageFault(m, access, va, code);
    PageFaultIsReported(m, access, va, code);
    ReportableAgainstStandard(scheme, m, access, va);
  }

  // ---- inputs on which they differ ----

  lemma AlwaysUpToDate(scheme: AdScheme)
    ensures UpToDate(scheme, PagePte(0x59), Load)
  {
    PageEntry(0x59);
    hide PagePte, Accessed, Dirty;
  }

  /**
   * MXR: a U-mode load from an execute-only user page is allowed by the standard, under either treatment
   * of A and D; the emulator raises a page fault.
   */
  lemma MxrLoadIsRefused(scheme: AdScheme, m: Machine, code: Code)
    requires m.ram == TinyRam(0, 0x59) && m.hart.csrs.satp == TINY_SPACE
    requires m.hart.mode == User && m.hart.csrs.status.mxr
    ensures Translate(scheme, m.ram, m.hart.csrs.satp, RightsOf(m.hart), LOW_VA, Load) == Physical(RAM_START)
    ensures ReportsPageFault(m, Load, LOW_VA, code)
  {
    TinyAllowed(scheme, 0x59, RightsOf(m.hart), Load);
    TinyLookup(0, 0x59, LOW_VA);
    PageEntry(0x59);
    AlwaysUpToDate(scheme);
    assert InRam(RAM_START);
    hide TinyRam, LookUp, PagePte, Readable, Writable, Executable, UserAccessible, Translate;
    hide TakeTrap, FillPage, UpToDate;
  }

  /** The standard's translation of the small page table, from its entry. */
  lemma TinyAllowed(scheme: AdScheme, flags: Byte, r: Rights, access: Access)
    requires TinyFlags(flags)
    ensures Translate(scheme, TinyRam(0, flags), TINY_SPACE, r, LOW_VA, access)
      == if Allowed(scheme, r, PagePte(flags), access) then Physical(RAM_START) else PageFault
  {
    var ram := TinyRam(0, flags);
    TinyWalk(0, flags, LOW_VA);
    TinyStrictWalk(flags);
    PageEntry(flags);
    LowestLevelIsAligned(PagePte(flags));
    assert 0x8_0000 * PAGE == RAM_START && LOW_VA % PAGE == 0 && Canonical(LOW_VA);
    hide TinyRam, WalkFrom, Allowed, PagePte, Misaligned, PtePpn;
  }

  lemma TinyStrictWalk(flags: Byte)
    requires TinyFlags(flags)
    ensures RootWalk(true, TinyRam(0, flags), TINY_SPACE, LOW_VA) == Leaf(0, PagePte(flags))
  {
    var ram := TinyRam(0, flags);
    TinyEntries(0, flags, LOW_VA);
    LoopEntry(0);
    PageEntry(flags);
    assert InRam(RAM_START) && 0x8_0000 * PAGE == RAM_START;
    hide TinyRam, Entry, Sv39.Valid, Readable, Writable, Executable, HasReservedBits, PtePpn, LoopPte, PagePte;
    hide RootTable;
    assert WalkFrom(true, ram, RAM_START, LOW_VA, 0) == Leaf(0, PagePte(flags));
    assert WalkFrom(true, ram, RAM_START, LOW_VA, 1) == WalkFrom(true, ram, RAM_START, LOW_VA, 0);
    assert WalkFrom(true, ram, RAM_START, LOW_VA, 2) == WalkFrom(true, ram, RAM_START, LOW_VA, 1);
  }

  lemma SupervisorPage(scheme: AdScheme, r: Rights, access: Access)
    requires r.mode == User
    ensures !Allowed(scheme, r, PagePte(0x0F), access)
  {
    PageEntry(0x0F);
    hide PagePte, Readable, Writable, Executable, UserAccessible, UpToDate;
  }

  /**
   * U: a U-mode access to a supervisor page faults by the standard; the emulator serves it, and the retried
   * load reads the page.
   */
  lemma SupervisorPageIsServed(scheme: AdScheme, m: Machine, code: Code)
    requires m.ram == TinyRam(0, 0x0F) && m.hart.csrs.satp == TINY_SPACE
    requires m.hart.mode == User && PageOf(LOW_VA) !in m.vm
    ensures Translate(scheme, m.ram, m.hart.csrs.satp, RightsOf(m.hart), LOW_VA, Load) == PageFault
    ensures OnFault(m, Load, LOW_VA, code).Next?
    ensures Reach(OnFault(m, Load, LOW_VA, code).m.vm, LOW_VA, ForRead) == Some(0)
  {
    TinyAllowed(scheme, 0x0F, RightsOf(m.hart), Load);
    SupervisorPage(scheme, RightsOf(m.hart), Load);
    TinyGrant(0, 0x0F, LOW_VA, Load);
    UserIsCanonical(LOW_VA);
    GrantsLikeSv39(m.ram, m.hart.csrs.satp, LOW_VA, Load, RAM_START);
    assert UseFor(Load) == ForRead && RAM_START - RAM_START == 0 && IsUser(LOW_VA);
    hide *;
    FaultIsServed(m, Load, LOW_VA, code, RAM_START);
  }
}
