/** Turning paging on: the first runs of any guest kernel, and a concrete one that the run theorems speak about. */
module Paging {
  import opened Words
  import opened Memory
  import opened Bits
  import opened Isa
  import opened Sv39
  import opened HostVm
  import opened Machine
  import opened Walker
  import opened Faults
  import opened Signals
  import opened Runs
  import opened CsrLaws
  import opened Tlb

  /** csrrw x0, satp, x5 */
  const CSRW_SATP: Code := 0x1802_9073

  lemma DecodesCsrwSatp()
    ensures Decode(CSRW_SATP) == Some(CsrAccess(Swap, 0x180, 0, FromReg(5)))
  {
  }

  /** The machine after the write: Sv39 on, one instruction further, a flush due. */
  lemma WritesSatp(m: Machine, space: AddressSpace)
    requires m.hart.mode == Supervisor && m.hart.x[5] == SpaceImage(space) && space.ppn < 0x1000_0000_0000
    ensures Dispatch(m, IllegalInstruction(CSRW_SATP))
      == Next(m.(hart := m.hart.(pc := Wrap(m.hart.pc + 4), csrs := m.hart.csrs.(satp := space)), flushPending := true))
  {
    DecodesCsrwSatp();
    SpaceFieldsOfImage(space);
    hide Decode, SpaceFields, SpaceImage, SatpModeSupported;
  }

  /** The kernel fills RAM, then writes satp from a register. */
  function TurnOn(x: Regs, ram: Ram): seq<Event> {
    [GuestRuns(KERNEL_START, x, ram), SignalArrives(IllegalInstruction(CSRW_SATP))]
  }

  function StubOnly(vm: HostVm, stub: StubRange): HostVm {
    map p | p in vm && InStub(stub, p) :: vm[p]
  }

  /** The machine once the write has been handled. */
  function AfterSatp(m: Machine, space: AddressSpace): Machine {
    m.(hart := m.hart.(pc := Wrap(m.hart.pc + 4), csrs := m.hart.csrs.(satp := space)),
       flushPending := false, vm := StubOnly(m.vm, m.stub))
  }

  lemma HandlesSatp(m: Machine, space: AddressSpace)
    requires m.hart.mode == Supervisor && m.hart.x[5] == SpaceImage(space) && space.ppn < 0x1000_0000_0000
    requires !m.hart.csrs.stip && ValidStub(m.stub)
    ensures Handle(m, IllegalInstruction(CSRW_SATP)) == Next(AfterSatp(m, space))
    ensures Flushes(m, IllegalInstruction(CSRW_SATP))
  {
    WritesSatp(m, space);
    UnmapAroundKeepsExactlyStub(m.vm, m.stub);
    hide UnmapAround, ValidStub, InStub, SpaceImage, Dispatch;
  }

  lemma RequestUnchanged(m: Machine, before: Option<int>)
    ensures RequestAfter(m, IllegalInstruction(CSRW_SATP), before) == before
  {
    DecodesCsrwSatp();
    hide Decode;
  }

  /** The write as one event of a run, for a machine with no interrupt pending. */
  lemma SatpStep(w: World, space: AddressSpace)
    requires w.m.hart.mode == Supervisor && w.m.hart.x[5] == SpaceImage(space) && space.ppn < 0x1000_0000_0000
    requires !w.m.hart.csrs.stip && ValidStub(w.m.stub)
    ensures Step(w, SignalArrives(IllegalInstruction(CSRW_SATP)))
      == Some(World(AfterSatp(w.m, space), [Now(AfterSatp(w.m, space))], w.flushes + 1, w.request))
  {
    HandlesSatp(w.m, space);
    RequestUnchanged(w.m, w.request);
    hide Handle, Flushes, AfterSatp, RequestAfter, Now, SpaceImage, ValidStub;
  }

  /** The guest's first stretch of native execution. */
  function Filled(boot: Machine, x: Regs, ram: Ram): Machine {
    boot.(hart := boot.hart.(pc := KERNEL_START, x := x), ram := ram)
  }

  lemma FillStep(boot: Machine, x: Regs, ram: Ram)
    ensures Step(Start(boot), GuestRuns(KERNEL_START, x, ram))
      == Some(World(Filled(boot, x, ram), [Now(boot), Now(Filled(boot, x, ram))], 0, None))
  {
    assert [Now(boot)] + [Now(Filled(boot, x, ram))] == [Now(boot), Now(Filled(boot, x, ram))];
  }

  lemma BootedFields(boot: Machine, x: Regs, ram: Ram, space: AddressSpace)
    requires Booted(boot)
    ensures var m := Filled(boot, x, ram);
      && m.hart.mode == Supervisor && m.hart.x == x && !m.hart.csrs.stip && ValidStub(m.stub)
      && AfterSatp(m, space) == boot.(
        hart := Hart(Supervisor, KERNEL_START + 4, x, boot.hart.csrs.(satp := space)),
        ram := ram, vm := StubOnly(boot.vm, boot.stub))
  {
    hide StubOnly, BootMappings, ValidStub;
  }

  /**
   * Whatever the kernel put in RAM, its satp write switches the address space and drops the identity
   * map: what is left are the stub's mappings, and nothing is interrupted on the way.
   */
  lemma PagingTurnsOn(boot: Machine, x: Regs, ram: Ram, space: AddressSpace)
    requires Booted(boot) && x[5] == SpaceImage(space) && space.ppn < 0x1000_0000_0000
    ensures var m := boot.(
        hart := Hart(Supervisor, KERNEL_START + 4, x, boot.hart.csrs.(satp := space)),
        ram := ram, vm := StubOnly(boot.vm, boot.stub));
      Run(Start(boot), TurnOn(x, ram)) == Some(World(m, [Now(m)], 1, None))
  {
    var filled := Filled(boot, x, ram);
    var w := World(filled, [Now(boot), Now(filled)], 0, None);
    assert TurnOn(x, ram) == [GuestRuns(KERNEL_START, x, ram), SignalArrives(IllegalInstruction(CSRW_SATP))];
    hide *;
    FillStep(boot, x, ram);
    BootedFields(boot, x, ram, space);
    TwoEvents(Start(boot), GuestRuns(KERNEL_START, x, ram), SignalArrives(IllegalInstruction(CSRW_SATP)));
    SatpStep(w, space);
  }

  // ---- a run on which the theorems have something to say ----

  function BareMetal(): Machine {
    Machine(Hart(Supervisor, KERNEL_START, seq(32, _ => 0), ResetCsrs()), false, TinyRam(0x80, 0x0F), RamIdentity(),
            StubRange(0, 0), Disarmed, [], 0, 0, [])
  }

  lemma BareMetalIsBooted()
    ensures Booted(BareMetal())
  {
    hide TinyRam;
  }

  function KernelRegs(): Regs {
    seq(32, i => if i == 5 then SpaceImage(TINY_SPACE) else 0)
  }

  function KernelEvents(): seq<Event> { TurnOn(KernelRegs(), TinyRam(0x80, 0x0F)) }

  function PagedWorld(): (w: World)
    ensures Reaches(BareMetal(), KernelEvents(), w)
    ensures w.m.hart.csrs.satp == TINY_SPACE && w.m.ram == TinyRam(0x80, 0x0F) && w.m.hart.pc == KERNEL_START + 4
    ensures w.epoch == [Now(w.m)] && w.m.vm == StubOnly(RamIdentity(), StubRange(0, 0))
  {
    BareMetalIsBooted();
    PagingTurnsOn(BareMetal(), KernelRegs(), TinyRam(0x80, 0x0F), TINY_SPACE);
    var m := BareMetal().(
      hart := Hart(Supervisor, KERNEL_START + 4, KernelRegs(), BareMetal().hart.csrs.(satp := TINY_SPACE)),
      ram := TinyRam(0x80, 0x0F), vm := StubOnly(BareMetal().vm, BareMetal().stub));
    World(m, [Now(m)], 1, None)
  }

  /** A load from the mapped page. */
  const FIRST_LOAD: Signal := Fault(LOW_VA, 0x03)

  lemma FirstLoadFills(w: World)
    requires w.m.hart.csrs.satp == TINY_SPACE && w.m.ram == TinyRam(0x80, 0x0F) && w.m.hart.pc == KERNEL_START + 4
    ensures AccessOf(w.m, FIRST_LOAD) == Access.Load && Fills(w.m, FIRST_LOAD)
    ensures Grants(w.m.ram, w.m.hart.csrs.satp, FIRST_LOAD.va, Access.Load) == Some(RAM_START)
  {
    ReservedBitsAreIgnored();
    hide TinyRam, LookUp, Permits;
  }

  lemma FirstLoadFaults(w: World)
    requires w.epoch == [Now(w.m)] && w.m.vm == StubOnly(RamIdentity(), StubRange(0, 0))
    ensures WalkUnchanged(w, FIRST_LOAD.va) && Reach(w.m.vm, FIRST_LOAD.va, ForRead).None?
    ensures IsUser(FIRST_LOAD.va) && !InStub(BareMetal().stub, PageOf(FIRST_LOAD.va))
  {
    hide LookUp;
    assert forall p :: p !in w.m.vm;
  }

  /** The hypotheses of the theorems on served faults hold in a run, and their conclusion is the mapped byte. */
  lemma FirstLoadIsServed()
    ensures Step(PagedWorld(), SignalArrives(FIRST_LOAD)).Some?
    ensures Reach(Step(PagedWorld(), SignalArrives(FIRST_LOAD)).value.m.vm, FIRST_LOAD.va, ForRead) == Some(0)
  {
    var w := PagedWorld();
    FirstLoadFills(w);
    FirstLoadFaults(w);
    assert UseFor(Access.Load) == ForRead;
    assert RAM_START - RAM_START == 0;
    hide *;
    GrantedFaultsMakeProgress(BareMetal(), KernelEvents(), w, FIRST_LOAD);
  }
}
