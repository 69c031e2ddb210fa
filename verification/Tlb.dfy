/**
 * The host mappings as a TLB: in every run each of them caches a translation made since the last
 * flush, in the current address space and privilege mode.
 */
module Tlb {
  import opened Words
  import opened Memory
  import opened Bits
  import opened Isa
  import opened Sv39
  import opened HostVm
  import opened Machine
  import opened Walker
  import opened Faults
  import opened Standard
  import opened Signals
  import opened Runs

  /** The page is what the walk made of page p at moment t, or RAM at its own address without translation. */
  predicate Backs(page: HostPage, t: Snapshot, p: int) {
    if t.space.sv39 then
      match LookUp(t.ram, t.space, p * PAGE)
      case Found(pa, pte) => InRam(pa) && page == PageFor(pa, pte)
      case _ => false
    else IsRamPage(p) && page == IdentityPage(p)
  }

  predicate Backed(page: HostPage, epoch: seq<Snapshot>, p: int) {
    exists k :: 0 <= k < |epoch| && Backs(page, epoch[k], p)
  }

  predicate TlbSound(w: World) {
    forall p :: p in w.m.vm && !InStub(w.m.stub, p) ==> Backed(w.m.vm[p], w.epoch, p)
  }

  lemma UserPageStart(va: int)
    requires IsUser(va)
    ensures 0 <= PageOf(va) * PAGE < USER_END && PageOf(PageOf(va) * PAGE) == PageOf(va)
    ensures (PageOf(va) * PAGE) % PAGE == 0
  {
    PageMultiple(PageOf(va));
  }

  /** A page that backs an address's page agrees with the walk of that address. */
  lemma BacksAnyAddress(page: HostPage, t: Snapshot, va: Word)
    requires t.space.sv39 && IsUser(va)
    ensures Backs(page, t, PageOf(va)) <==>
      match LookUp(t.ram, t.space, va)
      case Found(pa, pte) => InRam(pa) && page == PageFor(pa, pte)
      case _ => false
  {
    UserPageStart(va);
    var start := PageOf(va) * PAGE;
    SamePageSameLookup(t.ram, t.space, va, start);
    LookupKeepsOffset(t.ram, t.space, va);
    if LookUp(t.ram, t.space, va).Found? {
      var found := LookUp(t.ram, t.space, va);
      SamePageSameFrame(found.pa, LookUp(t.ram, t.space, start).pa, found.pte, va, start);
    }
    hide LookUp, PageFor, InRam, PageOf, PtePpn;
  }

  lemma FillIsBacked(w: World, s: Signal)
    requires OneContext(w) && Fills(w.m, s) && Dispatch(w.m, s).Next?
    ensures Backed(FilledPage(w.m, s), w.epoch, PageOf(s.va))
  {
    FillMapsOnePage(w.m, s);
    BacksAnyAddress(FilledPage(w.m, s), Now(w.m), s.va);
    assert Backs(FilledPage(w.m, s), w.epoch[|w.epoch| - 1], PageOf(s.va));
    hide Dispatch, PageFor, InRam, PageOf, Classify, Permits;
  }

  lemma LongerEpoch(page: HostPage, epoch: seq<Snapshot>, t: Snapshot, p: int)
    requires Backed(page, epoch, p)
    ensures Backed(page, epoch + [t], p)
  {
    hide Backs;
    var k :| 0 <= k < |epoch| && Backs(page, epoch[k], p);
    assert Backs(page, (epoch + [t])[k], p);
  }

  lemma DispatchKeepsSound(w: World, s: Signal)
    requires OneContext(w) && TlbSound(w) && Dispatch(w.m, s).Next?
    ensures forall p :: p in Dispatch(w.m, s).m.vm && !InStub(w.m.stub, p) ==>
      Backed(Dispatch(w.m, s).m.vm[p], w.epoch, p)
  {
    if Fills(w.m, s) {
      FillMapsOnePage(w.m, s);
      FillIsBacked(w, s);
    } else {
      OthersMapNothing(w.m, s);
    }
    hide Dispatch, InStub, Backed, OneContext, Fills, PageOf;
  }

  lemma TlbSoundStep(w: World, e: Event)
    requires OneContext(w) && TlbSound(w) && ValidStub(w.m.stub) && Step(w, e).Some?
    ensures TlbSound(Step(w, e).value)
  {
    hide Dispatch, DeliverInterrupt, UnmapAround, InStub, Backed, RequestAfter, ValidStub, OneContext;
    hide TimerInterruptReady;
    var w1 := Step(w, e).value;
    match e
    case GuestRuns(_, _, _) =>
      forall p | p in w1.m.vm && !InStub(w1.m.stub, p) ensures Backed(w1.m.vm[p], w1.epoch, p) {
        LongerEpoch(w.m.vm[p], w.epoch, Now(w1.m), p);
      }
    case SignalArrives(s) =>
      InterruptContext(Dispatch(w.m, s).m);
      StubRangeStays(w.m, s);
      if Flushes(w.m, s) {
        HandleWithFlush(w.m, s);
      } else {
        HandleWithoutFlush(w.m, s);
        DispatchKeepsSound(w, s);
        forall p | p in w1.m.vm && !InStub(w1.m.stub, p) ensures Backed(w1.m.vm[p], w1.epoch, p) {
          LongerEpoch(w1.m.vm[p], w.epoch, Now(w1.m), p);
        }
      }
  }

  // ---- at every point of every run ----

  lemma BootIsSound(boot: Machine)
    requires Booted(boot)
    ensures OneContext(Start(boot)) && StubIntact(boot, Start(boot)) && TlbSound(Start(boot))
  {
    forall p | p in boot.vm && !InStub(boot.stub, p) ensures Backed(boot.vm[p], [Now(boot)], p) {
      assert Backs(boot.vm[p], [Now(boot)][0], p);
    }
  }

  lemma {:induction false} RunsAreSound(boot: Machine, events: seq<Event>, w: World)
    requires Reaches(boot, events, w)
    ensures OneContext(w) && StubIntact(boot, w) && TlbSound(w)
  {
    hide Booted, OneContext, StubPages, TlbSound, Step, ValidStub;
    if events == [] {
      BootIsSound(boot);
    } else {
      var last := |events| - 1;
      var v := Run(Start(boot), events[..last]).value;
      RunsAreSound(boot, events[..last], v);
      OneContextStep(v, events[last]);
      StubIntactStep(boot, v, events[last]);
      TlbSoundStep(v, events[last]);
    }
  }

  /** The mappings answer for moment t: what the algorithm, reserved bits ignored, translated then. */
  lemma BackedHit(w: World, t: Snapshot, va: int, use: Use)
    requires IsUser(va) && PageOf(va) in w.m.vm && Backs(w.m.vm[PageOf(va)], t, PageOf(va))
    requires Reach(w.m.vm, va, use).Some?
    ensures TranslateWith(false, t.ram, t.space, va, AccessFor(use))
      == Physical(RAM_START + Reach(w.m.vm, va, use).value)
  {
    if t.space.sv39 {
      BacksAnyAddress(w.m.vm[PageOf(va)], t, va);
      var found := LookUp(t.ram, t.space, va);
      LookupKeepsOffset(t.ram, t.space, va);
      ReachesFrame(w.m.vm, va, found.pa, found.pte, use);
      UserIsCanonical(va);
      GrantsLikeSv39(t.ram, t.space, va, AccessFor(use), found.pa);
      hide LookUp, PageOf, TranslateWith, Backs, RootWalk, IsSuperpage, PtePpn, Reach, Permits;
    } else {
      IdentityHit(w.m.vm, va, use);
    }
  }

  lemma IdentityHit(vm: HostVm, va: int, use: Use)
    requires IsUser(va) && PageOf(va) in vm && IsRamPage(PageOf(va)) && vm[PageOf(va)] == IdentityPage(PageOf(va))
    ensures Reach(vm, va, use) == Some(va - RAM_START)
  {
  }

  /** At some moment since the last flush, in the current space and mode, the access had this RAM offset. */
  predicate TranslatedSinceFlush(w: World, va: int, use: Use, offset: int) {
    exists k :: 0 <= k < |w.epoch|
      && w.epoch[k].space == w.m.hart.csrs.satp && w.epoch[k].mode == w.m.hart.mode
      && TranslateWith(false, w.epoch[k].ram, w.epoch[k].space, va, AccessFor(use)) == Physical(RAM_START + offset)
  }

  /**
   * TLB soundness: whenever the guest runs, an access that does not fault and is not to the stub
   * reaches exactly the byte that the Sv39 algorithm (or Bare mode) gave for that access at some
   * moment since the last flush, in the address space and the privilege mode that are current.
   */
  lemma AccessesAreTranslated(boot: Machine, events: seq<Event>, w: World, va: int, use: Use)
    requires Reaches(boot, events, w)
    requires Reach(w.m.vm, va, use).Some? && !InStub(boot.stub, PageOf(va))
    ensures TranslatedSinceFlush(w, va, use, Reach(w.m.vm, va, use).value)
  {
    RunsAreSound(boot, events, w);
    hide Reaches, Booted, Backs, InStub, TranslateWith, StubPages, ValidStub, Allows;
    var page := w.m.vm[PageOf(va)];
    assert Backed(page, w.epoch, PageOf(va));
    var k :| 0 <= k < |w.epoch| && Backs(page, w.epoch[k], PageOf(va));
    BackedHit(w, w.epoch[k], va, use);
  }

  /** The walk of an address has had one result ever since the last flush. */
  predicate WalkUnchanged(w: World, va: int) {
    forall k :: 0 <= k < |w.epoch| ==>
      LookUp(w.epoch[k].ram, w.m.hart.csrs.satp, va) == LookUp(w.m.ram, w.m.hart.csrs.satp, va)
  }

  lemma BackedGrant(w: World, t: Snapshot, va: int, use: Use)
    requires t.space.sv39 && IsUser(va) && PageOf(va) in w.m.vm && Backs(w.m.vm[PageOf(va)], t, PageOf(va))
    requires Reach(w.m.vm, va, use).Some?
    ensures Grants(t.ram, t.space, va, AccessFor(use)) == Some(RAM_START + Reach(w.m.vm, va, use).value)
  {
    BacksAnyAddress(w.m.vm[PageOf(va)], t, va);
    var found := LookUp(t.ram, t.space, va);
    LookupKeepsOffset(t.ram, t.space, va);
    ReachesFrame(w.m.vm, va, found.pa, found.pte, use);
    hide LookUp, PageOf, Backs, PtePpn, Reach, Permits;
  }

  /** While the tables behind an address are unchanged, a page that serves an access is what the walk grants now. */
  lemma AccessesAreGranted(boot: Machine, events: seq<Event>, w: World, va: int, use: Use)
    requires Reaches(boot, events, w) && w.m.hart.csrs.satp.sv39
    requires Reach(w.m.vm, va, use).Some? && !InStub(boot.stub, PageOf(va)) && WalkUnchanged(w, va)
    ensures Grants(w.m.ram, w.m.hart.csrs.satp, va, AccessFor(use))
      == Some(RAM_START + Reach(w.m.vm, va, use).value)
  {
    RunsAreSound(boot, events, w);
    hide Reaches, Booted, Backs, InStub, StubPages, ValidStub, Allows, LookUp, Permits;
    var page := w.m.vm[PageOf(va)];
    assert Backed(page, w.epoch, PageOf(va));
    var k :| 0 <= k < |w.epoch| && Backs(page, w.epoch[k], PageOf(va));
    BackedGrant(w, w.epoch[k], va, use);
  }

  /**
   * While the guest leaves the tables behind an address alone, an access that does not fault reaches
   * exactly the byte the algorithm translates it to now.
   */
  lemma AccessesAreExact(boot: Machine, events: seq<Event>, w: World, va: int, use: Use)
    requires Reaches(boot, events, w)
    requires Reach(w.m.vm, va, use).Some? && !InStub(boot.stub, PageOf(va)) && WalkUnchanged(w, va)
    ensures TranslateWith(false, w.m.ram, w.m.hart.csrs.satp, va, AccessFor(use))
      == Physical(RAM_START + Reach(w.m.vm, va, use).value)
  {
    if w.m.hart.csrs.satp.sv39 {
      UserIsCanonical(va);
      AccessesAreGranted(boot, events, w, va, use);
      GrantsLikeSv39(w.m.ram, w.m.hart.csrs.satp, va, AccessFor(use), RAM_START + Reach(w.m.vm, va, use).value);
      hide Reaches, InStub, WalkUnchanged, Grants, TranslateWith, IsSuperpage, RootWalk, Allows;
    } else {
      hide Reaches, InStub, WalkUnchanged, Reach;
      AccessesAreTranslated(boot, events, w, va, use);
    }
  }

  /** No reserved bit on the way, and an entry that passes the standard's checks for the hart's rights. */
  predicate PassesStandard(scheme: AdScheme, m: Machine, va: int, access: Access) {
    && !ReservedOnRootPath(m.ram, m.hart.csrs.satp, va)
    && EntryAllowed(scheme, m.ram, m.hart.csrs.satp, RightsOf(m.hart), va, access)
  }

  /**
   * Against the whole algorithm, U, SUM, MXR, A and D included: while the tables behind an address are
   * unchanged, an access that does not fault reaches the byte the standard translates it to exactly when
   * no reserved bit is set on the way and the entry passes the standard's checks for the current mode.
   */
  lemma AccessesFollowTheStandard(
      scheme: AdScheme, boot: Machine, events: seq<Event>, w: World, va: int, use: Use)
    requires Reaches(boot, events, w)
    requires Reach(w.m.vm, va, use).Some? && !InStub(boot.stub, PageOf(va)) && WalkUnchanged(w, va)
    ensures Translate(scheme, w.m.ram, w.m.hart.csrs.satp, RightsOf(w.m.hart), va, AccessFor(use))
        == Physical(RAM_START + Reach(w.m.vm, va, use).value)
      <==> (w.m.hart.csrs.satp.sv39 ==> PassesStandard(scheme, w.m, va, AccessFor(use)))
  {
    var space, r := w.m.hart.csrs.satp, RightsOf(w.m.hart);
    AccessesAreExact(boot, events, w, va, use);
    UserIsCanonical(va);
    if space.sv39 {
      AccessesAreGranted(boot, events, w, va, use);
      GrantedByEmulator(scheme, w.m.ram, space, r, va, AccessFor(use), RAM_START + Reach(w.m.vm, va, use).value);
    }
    hide Reaches, WalkFrom, LookUp, ReservedOnRootPath, EntryAllowed, Grants, InStub, WalkUnchanged, TranslateWith;
  }

  // ---- a fault is served, once ----

  /**
   * While the tables behind an address are unchanged, the kernel's report of a fault that the walk
   * grants finds the page free: MAP_FIXED_NOREPLACE never meets an older mapping, and the retried
   * access reaches the granted byte.
   */
  lemma GrantedFaultIsServed(boot: Machine, events: seq<Event>, w: World, va: Word, access: Access, code: Code)
    requires Reaches(boot, events, w) && IsUser(va) && !InStub(boot.stub, PageOf(va)) && WalkUnchanged(w, va)
    requires Grants(w.m.ram, w.m.hart.csrs.satp, va, access).Some?
    requires Reach(w.m.vm, va, UseFor(access)).None?
    ensures PageOf(va) !in w.m.vm
    ensures OnFault(w.m, access, va, code).Next?
    ensures Reach(OnFault(w.m, access, va, code).m.vm, va, UseFor(access))
      == Some(Grants(w.m.ram, w.m.hart.csrs.satp, va, access).value - RAM_START)
  {
    hide *;
    MappedPageGrants(boot, events, w, va, access);
    GrantOnFreePage(w.m, access, va, code);
  }

  lemma GrantOnFreePage(m: Machine, access: Access, va: Word, code: Code)
    requires IsUser(va) && PageOf(va) !in m.vm && Grants(m.ram, m.hart.csrs.satp, va, access).Some?
    ensures OnFault(m, access, va, code).Next?
    ensures Reach(OnFault(m, access, va, code).m.vm, va, UseFor(access))
      == Some(Grants(m.ram, m.hart.csrs.satp, va, access).value - RAM_START)
  {
    var pa := Grants(m.ram, m.hart.csrs.satp, va, access).value;
    UserIsCanonical(va);
    GrantsLikeSv39(m.ram, m.hart.csrs.satp, va, access, pa);
    hide TranslateWith, IsSuperpage, RootWalk, Reach, OnFault, PageOf, LookUp, Permits, Canonical;
    FaultIsServed(m, access, va, code, pa);
  }

  /** A page that is mapped allows whatever the unchanged walk grants. */
  lemma MappedPageGrants(boot: Machine, events: seq<Event>, w: World, va: Word, access: Access)
    requires Reaches(boot, events, w) && IsUser(va) && !InStub(boot.stub, PageOf(va)) && WalkUnchanged(w, va)
    requires Grants(w.m.ram, w.m.hart.csrs.satp, va, access).Some?
    ensures PageOf(va) in w.m.vm ==> Reach(w.m.vm, va, UseFor(access)).Some?
  {
    if PageOf(va) in w.m.vm {
      RunsAreSound(boot, events, w);
      hide Reaches, Booted, Backs, InStub, StubPages, ValidStub, Allows, LookUp, TimerInterruptReady, Permits, Reach;
      hide PageOf;
      var page := w.m.vm[PageOf(va)];
      assert Backed(page, w.epoch, PageOf(va));
      var k :| 0 <= k < |w.epoch| && Backs(page, w.epoch[k], PageOf(va));
      BacksAnyAddress(page, w.epoch[k], va);
      var found := LookUp(w.m.ram, w.m.hart.csrs.satp, va);
      LookupKeepsOffset(w.m.ram, w.m.hart.csrs.satp, va);
      ReachesFrame(w.m.vm, va, found.pa, found.pte, UseFor(access));
    }
  }

  // ---- between flushes mappings only accumulate ----

  lemma {:induction false} FlushesOnlyGrow(w: World, events: seq<Event>, v: World)
    requires Run(w, events) == Some(v)
    ensures v.flushes >= w.flushes
  {
    if events != [] {
      var last := |events| - 1;
      FlushesOnlyGrow(w, events[..last], Run(w, events[..last]).value);
      hide Handle, Flushes, RequestAfter;
    }
  }

  /** How many of the signals in a run mapped a page. */
  function Fillings(w: World, events: seq<Event>): nat {
    if events == [] then 0
    else
      var last := |events| - 1;
      Fillings(w, events[..last]) +
      match Run(w, events[..last])
      case Some(v) => if events[last].SignalArrives? && Fills(v.m, events[last].s) then 1 else 0
      case None => 0
  }

  predicate Extends(vm: HostVm, later: HostVm) {
    forall p :: p in vm ==> p in later && later[p] == vm[p]
  }

  lemma QuietStep(w: World, e: Event)
    requires Step(w, e).Some? && Step(w, e).value.flushes == w.flushes
    ensures Extends(w.m.vm, Step(w, e).value.m.vm)
    ensures |Step(w, e).value.m.vm| == |w.m.vm| + if e.SignalArrives? && Fills(w.m, e.s) then 1 else 0
  {
    if e.SignalArrives? {
      HandleWithoutFlush(w.m, e.s);
      if Fills(w.m, e.s) { FillMapsOnePage(w.m, e.s); } else { OthersMapNothing(w.m, e.s); }
      hide Dispatch, DeliverInterrupt, Fills, RequestAfter, UnmapAround, FilledPage;
    }
  }

  /** Without a flush no mapping is lost or replaced, and every fill adds one. */
  lemma {:induction false} MappingsAccumulate(w: World, events: seq<Event>, v: World)
    requires Run(w, events) == Some(v) && v.flushes == w.flushes
    ensures Extends(w.m.vm, v.m.vm)
    ensures |v.m.vm| == |w.m.vm| + Fillings(w, events)
  {
    if events != [] {
      var last := |events| - 1;
      var u := Run(w, events[..last]).value;
      FlushesOnlyGrow(w, events[..last], u);
      FlushesOnlyGrow(u, [events[last]], v);
      MappingsAccumulate(w, events[..last], u);
      QuietStep(u, events[last]);
      hide Step, Fills;
    }
  }

  const USER_PAGES: int := 0x400_0000

  function Below(n: nat): (pages: set<int>)
    ensures |pages| == n
    ensures forall p :: p in pages <==> 0 <= p < n
  {
    if n == 0 then {} else Below(n - 1) + {n - 1}
  }

  lemma UserPagesBound(vm: HostVm)
    ensures |vm| <= USER_PAGES
  {
    var mapped, all := vm.Keys, Below(USER_PAGES);
    assert mapped <= all;
    assert all == mapped + (all - mapped);
  }

  /** Between two flushes the emulator fills at most as many pages as user space has. */
  lemma FillingsAreBounded(w: World, events: seq<Event>, v: World)
    requires Run(w, events) == Some(v) && v.flushes == w.flushes
    ensures Fillings(w, events) <= USER_PAGES - |w.m.vm|
  {
    hide *;
    MappingsAccumulate(w, events, v);
    UserPagesBound(v.m.vm);
  }

  lemma ServedStays(m: Machine, s: Signal, vm: HostVm)
    requires Fills(m, s) && Dispatch(m, s).Next? && Extends(Dispatch(m, s).m.vm, vm)
    ensures Reach(vm, s.va, UseFor(AccessOf(m, s)))
      == Some(Grants(m.ram, m.hart.csrs.satp, s.va, AccessOf(m, s)).value - RAM_START)
  {
    FillMapsOnePage(m, s);
    LookupKeepsOffset(m.ram, m.hart.csrs.satp, s.va);
    var found := LookUp(m.ram, m.hart.csrs.satp, s.va);
    hide Dispatch, LookUp, Reach, Permits, PageOf, Classify, PtePpn;
    ReachesFrame(vm, s.va, found.pa, found.pte, UseFor(AccessOf(m, s)));
  }

  lemma ServedIsKept(w: World, s: Signal, w1: World, later: seq<Event>, v: World)
    requires Step(w, SignalArrives(s)) == Some(w1)
    requires Run(w1, later) == Some(v) && v.flushes == w.flushes
    ensures Dispatch(w.m, s).Next? && Extends(Dispatch(w.m, s).m.vm, v.m.vm)
  {
    FlushesOnlyGrow(w1, later, v);
    FlushesOnlyGrow(w, [SignalArrives(s)], w1);
    MappingsAccumulate(w1, later, v);
    HandleWithoutFlush(w.m, s);
    hide Dispatch, Run, DeliverInterrupt, UnmapAround, RequestAfter;
  }

  /** Once a fault has been served, the same access never faults again before the next flush. */
  lemma FaultsAtMostOnce(w: World, s: Signal, w1: World, later: seq<Event>, v: World)
    requires Fills(w.m, s) && Step(w, SignalArrives(s)) == Some(w1)
    requires Run(w1, later) == Some(v) && v.flushes == w.flushes
    ensures Reach(v.m.vm, s.va, UseFor(AccessOf(w.m, s)))
      == Some(Grants(w.m.ram, w.m.hart.csrs.satp, s.va, AccessOf(w.m, s)).value - RAM_START)
  {
    hide *;
    ServedIsKept(w, s, w1, later, v);
    ServedStays(w.m, s, v.m.vm);
  }

  /** Serving a fault leaves nothing to interrupt or flush: the handler resumes with just the new page. */
  lemma FillsAreNotFlushed(w: World, s: Signal)
    requires OneContext(w) && Fills(w.m, s) && Dispatch(w.m, s).Next?
    ensures Handle(w.m, s) == Dispatch(w.m, s) && !Flushes(w.m, s)
  {
    FillMapsOnePage(w.m, s);
    hide Dispatch, Fills, TimerInterruptReady, FilledPage;
  }

  lemma FillStep(w: World, s: Signal)
    requires OneContext(w) && Fills(w.m, s) && Dispatch(w.m, s).Next?
    ensures Step(w, SignalArrives(s)).Some?
    ensures Step(w, SignalArrives(s)).value.m == Dispatch(w.m, s).m
    ensures Step(w, SignalArrives(s)).value.flushes == w.flushes
  {
    FillsAreNotFlushed(w, s);
    hide Dispatch, Handle, Fills, OneContext, RequestAfter, Flushes;
  }

  /**
   * Progress: in every run, while the tables behind an address are unchanged, the report of a fault
   * that the walk grants resumes the guest with the access mapped, at the granted byte.
   */
  lemma GrantedFaultsMakeProgress(boot: Machine, events: seq<Event>, w: World, s: Signal)
    requires Reaches(boot, events, w) && Fills(w.m, s) && IsUser(s.va) && !InStub(boot.stub, PageOf(s.va))
    requires WalkUnchanged(w, s.va) && Reach(w.m.vm, s.va, UseFor(AccessOf(w.m, s))).None?
    ensures Step(w, SignalArrives(s)).Some?
    ensures Reach(Step(w, SignalArrives(s)).value.m.vm, s.va, UseFor(AccessOf(w.m, s)))
      == Some(Grants(w.m.ram, w.m.hart.csrs.satp, s.va, AccessOf(w.m, s)).value - RAM_START)
    ensures Step(w, SignalArrives(s)).value.flushes == w.flushes
  {
    hide *;
    GrantedFaultDispatches(boot, events, w, s);
    ContextOfRun(boot, events, w);
    FillStep(w, s);
    ExtendsItself(Dispatch(w.m, s).m.vm);
    ServedStays(w.m, s, Dispatch(w.m, s).m.vm);
  }

  lemma ExtendsItself(vm: HostVm)
    ensures Extends(vm, vm)
  {
  }

  lemma GrantedFaultDispatches(boot: Machine, events: seq<Event>, w: World, s: Signal)
    requires Reaches(boot, events, w) && Fills(w.m, s) && IsUser(s.va) && !InStub(boot.stub, PageOf(s.va))
    requires WalkUnchanged(w, s.va) && Reach(w.m.vm, s.va, UseFor(AccessOf(w.m, s))).None?
    ensures Dispatch(w.m, s).Next?
  {
    hide Reaches, Reach, Grants, WalkUnchanged, Classify, InStub, OnFault;
    GrantedFaultIsServed(boot, events, w, s.va, AccessOf(w.m, s), s.code);
  }

  lemma ContextOfRun(boot: Machine, events: seq<Event>, w: World)
    requires Reaches(boot, events, w)
    ensures OneContext(w)
  {
    hide *;
    RunsAreSound(boot, events, w);
  }

  // ---- the history behind an access ----

  lemma StepEpoch(v: World, e: Event)
    requires Step(v, e).Some?
    ensures var w := Step(v, e).value;
      || w.epoch == [Now(w.m)]
      || (w.epoch == v.epoch + [Now(w.m)] && w.flushes == v.flushes)
  {
    hide Handle, Flushes, RequestAfter, Now;
  }

  lemma RunUnfolds(w: World, events: seq<Event>)
    requires events != [] && Run(w, events).Some?
    ensures var last := |events| - 1;
      Run(w, events[..last]).Some? && Run(w, events) == Step(Run(w, events[..last]).value, events[last])
  {
    hide Step;
  }

  /** Where in the run the moment k of the epoch is. */
  function MomentOf(events: seq<Event>, w: World, k: nat): int { |events| + 1 - |w.epoch| + k }

  predicate IsMoment(start: World, events: seq<Event>, w: World, k: nat)
    requires k < |w.epoch|
  {
    var j := MomentOf(events, w, k);
    0 <= j <= |events| && Run(start, events[..j]).Some?
    && Run(start, events[..j]).value.flushes == w.flushes && Now(Run(start, events[..j]).value.m) == w.epoch[k]
  }

  lemma LastMoment(start: World, events: seq<Event>, w: World)
    requires Run(start, events) == Some(w) && |w.epoch| > 0 && w.epoch[|w.epoch| - 1] == Now(w.m)
    ensures IsMoment(start, events, w, |w.epoch| - 1)
  {
    assert events[..|events|] == events;
    hide Run, Now;
  }

  /** The moments since the last flush are the last |epoch| worlds of the run, in order. */
  lemma {:induction false} EpochIsHistory(start: World, events: seq<Event>, w: World, k: nat)
    requires start.epoch == [Now(start.m)] && Run(start, events) == Some(w) && k < |w.epoch|
    ensures IsMoment(start, events, w, k)
  {
    hide Step, Now;
    if events == [] {
      LastMoment(start, events, w);
    } else {
      var last := |events| - 1;
      RunUnfolds(start, events);
      var v := Run(start, events[..last]).value;
      StepEpoch(v, events[last]);
      if k == |w.epoch| - 1 {
        LastMoment(start, events, w);
      } else {
        EpochIsHistory(start, events[..last], v, k);
        var j := MomentOf(events[..last], v, k);
        assert events[..last][..j] == events[..j];
        hide Run;
        assert j == MomentOf(events, w, k);
      }
    }
  }

  /** In the world after the first j events, the access had this RAM offset, in w's space and mode. */
  predicate TranslatedAt(boot: Machine, events: seq<Event>, j: nat, w: World, va: int, use: Use, offset: int)
    requires j <= |events|
  {
    var u := Run(Start(boot), events[..j]);
    && u.Some? && u.value.flushes == w.flushes
    && u.value.m.hart.csrs.satp == w.m.hart.csrs.satp && u.value.m.hart.mode == w.m.hart.mode
    && TranslateWith(false, u.value.m.ram, u.value.m.hart.csrs.satp, va, AccessFor(use)) == Physical(RAM_START + offset)
  }

  /**
   * TLB soundness over the run itself: an access that does not fault reaches the byte the algorithm gave it
   * in some world of the run since the last flush.
   */
  lemma AccessesWereTranslated(boot: Machine, events: seq<Event>, w: World, va: int, use: Use)
    requires Reaches(boot, events, w)
    requires Reach(w.m.vm, va, use).Some? && !InStub(boot.stub, PageOf(va))
    ensures exists j :: 0 <= j <= |events| && TranslatedAt(boot, events, j, w, va, use, Reach(w.m.vm, va, use).value)
  {
    AccessesAreTranslated(boot, events, w, va, use);
    hide Booted, Reach, TranslateWith, Run, InStub;
    var k :| 0 <= k < |w.epoch|
      && w.epoch[k].space == w.m.hart.csrs.satp && w.epoch[k].mode == w.m.hart.mode
      && TranslateWith(false, w.epoch[k].ram, w.epoch[k].space, va, AccessFor(use))
        == Physical(RAM_START + Reach(w.m.vm, va, use).value);
    assert Run(Start(boot), events) == Some(w) && Start(boot).epoch == [Now(Start(boot).m)];
    EpochIsHistory(Start(boot), events, w, k);
    assert TranslatedAt(boot, events, MomentOf(events, w, k), w, va, use, Reach(w.m.vm, va, use).value);
  }

  // ---- sfence.vma ----

  lemma FenceFlushes(w: World, code: Code)
    requires OneContext(w) && w.m.hart.mode == Supervisor && Decode(code) == Some(SfenceVma)
    ensures Step(w, SignalArrives(IllegalInstruction(code))).Some?
    ensures Step(w, SignalArrives(IllegalInstruction(code))).value.flushes == w.flushes + 1
  {
    hide Decode, RequestAfter, UnmapAround;
  }

  /** A translation as recent as the last flush is no older than an earlier event that flushed. */
  lemma NotBeforeFlush(boot: Machine, before: seq<Event>, e: Event, after: seq<Event>, w: World, j: nat)
    requires Run(Start(boot), before + [e] + after) == Some(w) && Run(Start(boot), before).Some?
    requires Step(Run(Start(boot), before).value, e).Some?
    requires Step(Run(Start(boot), before).value, e).value.flushes > Run(Start(boot), before).value.flushes
    requires j <= |before|
    ensures Run(Start(boot), (before + [e] + after)[..j]).Some?
    ensures Run(Start(boot), (before + [e] + after)[..j]).value.flushes < w.flushes
  {
    var start, events := Start(boot), before + [e] + after;
    var u := Run(start, before).value;
    hide Step, Run;
    PrefixRuns(start, events, |before| + 1);
    assert events[..|before| + 1] == before + [e] && events[|before| + 1..] == after;
    OneMore(start, before, e);
    FlushesOnlyGrow(Step(u, e).value, after, w);
    PrefixRuns(start, before, j);
    assert before[..j] == events[..j];
    FlushesOnlyGrow(Run(start, before[..j]).value, before[j..], u);
  }

  /**
   * sfence.vma over runs: after the guest kernel has executed it, no access uses page tables as they were
   * before: what an access reaches was translated in a world of the run after the fence.
   */
  lemma FenceHidesOlderTables(
      boot: Machine, before: seq<Event>, code: Code, after: seq<Event>, w: World, va: int, use: Use)
    requires var events := before + [SignalArrives(IllegalInstruction(code))] + after;
      Reaches(boot, events, w)
    requires Run(Start(boot), before).Some? && Run(Start(boot), before).value.m.hart.mode == Supervisor
    requires Decode(code) == Some(SfenceVma)
    requires Reach(w.m.vm, va, use).Some? && !InStub(boot.stub, PageOf(va))
    ensures var events := before + [SignalArrives(IllegalInstruction(code))] + after;
      exists j :: |before| < j <= |events| && TranslatedAt(boot, events, j, w, va, use, Reach(w.m.vm, va, use).value)
  {
    var fence := SignalArrives(IllegalInstruction(code));
    var events := before + [fence] + after;
    var u := Run(Start(boot), before).value;
    AccessesWereTranslated(boot, events, w, va, use);
    var j :| 0 <= j <= |events| && TranslatedAt(boot, events, j, w, va, use, Reach(w.m.vm, va, use).value);
    ContextOfRun(boot, before, u);
    FenceFlushes(u, code);
    if j <= |before| { NotBeforeFlush(boot, before, fence, after, w, j); }
    hide Run, Step, Booted, Reach, InStub, TranslateWith, Decode, OneContext;
  }
}
