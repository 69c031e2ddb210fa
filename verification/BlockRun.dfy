/** A concrete run in which the guest writes its page to a block and reads it back. */
module BlockRun {
  import opened Words
  import opened Memory
  import opened Bits
  import opened Isa
  import opened Sv39
  import opened HostVm
  import opened Machine
  import opened Walker
  import opened Runs
  import opened BlockDevice

  const DEVICE_VA: Word := 0x2000
  const DEVICE_PTE: int := 0x0410_0007

  /** sd t0, 0(t1) */
  const SD: Code := 0x0053_3023

  lemma DeviceEntry()
    ensures Sv39.Valid(DEVICE_PTE) && Readable(DEVICE_PTE) && PtePpn(DEVICE_PTE) * PAGE == BLOCK_COMMAND
  {
  }

  lemma DeviceEntries(flags: Byte)
    ensures RootTable(TINY_SPACE) == RAM_START && RAM_START % PAGE == 0
    ensures Entry(TinyRam(0, flags), RAM_START, DEVICE_VA, 2) == LoopPte(0)
    ensures Entry(TinyRam(0, flags), RAM_START, DEVICE_VA, 1) == LoopPte(0)
    ensures Entry(TinyRam(0, flags), RAM_START, DEVICE_VA, 0) == DEVICE_PTE
  {
    assert Vpn(DEVICE_VA, 2) == 0 && Vpn(DEVICE_VA, 1) == 0 && Vpn(DEVICE_VA, 0) == 2;
    assert Load64(TinyRam(0, flags), 0) == LoopPte(0);
    assert Load64(TinyRam(0, flags), 16) == DEVICE_PTE;
  }

  lemma DeviceWalk(flags: Byte)
    ensures RootWalk(false, TinyRam(0, flags), TINY_SPACE, DEVICE_VA) == Leaf(0, DEVICE_PTE)
  {
    var ram := TinyRam(0, flags);
    DeviceEntries(flags);
    LoopEntry(0);
    DeviceEntry();
    assert InRam(RAM_START) && 0x8_0000 * PAGE == RAM_START;
    hide TinyRam, Entry, Sv39.Valid, Readable, Writable, Executable, HasReservedBits, PtePpn, LoopPte, RootTable;
    assert WalkFrom(false, ram, RAM_START, DEVICE_VA, 0) == Leaf(0, DEVICE_PTE);
    assert WalkFrom(false, ram, RAM_START, DEVICE_VA, 1) == WalkFrom(false, ram, RAM_START, DEVICE_VA, 0);
    assert WalkFrom(false, ram, RAM_START, DEVICE_VA, 2) == WalkFrom(false, ram, RAM_START, DEVICE_VA, 1);
  }

  lemma DeviceLookup(flags: Byte)
    ensures LookUp(TinyRam(0, flags), TINY_SPACE, DEVICE_VA) == Found(BLOCK_COMMAND, DEVICE_PTE)
  {
    DeviceWalk(flags);
    DeviceEntry();
    assert DEVICE_VA % PAGE == 0 && SignExtended39(DEVICE_VA);
    hide TinyRam, WalkFrom, PtePpn, SignExtended39;
  }

  lemma StoreDecodes(pc: Word)
    requires pc != DEVICE_VA
    ensures Classify(DEVICE_VA, pc, SD) == Store && StoreSource(SD) == Some(5)
  {
  }

  /** Registers with a command in t0. */
  function Command(command: Word): Regs { seq(32, i => if i == 5 then command else 0) }

  /** A guest kernel with paging on, its page mapped as buffer, about to store a command. */
  function Ready(command: Word): Machine {
    Machine(Hart(Supervisor, KERNEL_START, Command(command), ResetCsrs().(satp := TINY_SPACE)), false, TinyRam(0, 0x0F),
            map[1 := RamPage(0, true, true, true)], StubRange(0, 0), Disarmed, [], 0, LOW_VA, [])
  }

  const COMMAND_STORE: Signal := Fault(DEVICE_VA, SD)

  lemma BufferIsMapped(vm: HostVm, use: Use)
    requires vm == map[1 := RamPage(0, true, true, true)]
    ensures Mapped(vm, LOW_VA, BLOCK_SIZE, use)
  {
  }

  /** What matters of a machine about to store a command. */
  predicate Stores(m: Machine, command: Word) {
    && m.ram == TinyRam(0, 0x0F) && m.hart.csrs.satp == TINY_SPACE && m.hart.pc != DEVICE_VA
    && m.hart.x[5] == command && m.blockId == 0
  }

  lemma StoresCommand(m: Machine, command: Word)
    requires Stores(m, command)
    ensures command == 2 ==> WritesBlock(m, COMMAND_STORE)
    ensures command == 1 ==> ReadsBlock(m, COMMAND_STORE)
  {
    DeviceLookup(0x0F);
    StoreDecodes(m.hart.pc);
    hide TinyRam, LookUp, Classify, StoreSource;
  }

  /** The write's step: the file changes and pc moves on, the rest stays. */
  lemma WriteStep(w: World)
    requires w.m == Ready(2)
    ensures var v := Step(w, SignalArrives(COMMAND_STORE));
      v.Some? && exists file, pc :: v.value.m == w.m.(file := file, hart := w.m.hart.(pc := pc))
  {
    StoresCommand(w.m, 2);
    DispatchWrites(w.m, COMMAND_STORE);
    var m := Dispatch(w.m, COMMAND_STORE).m;
    assert !m.hart.csrs.stip && !m.flushPending;
    hide Dispatch, TinyRam, Command, Step, WritesBlock, BlockTransfer, StoreLength;
    QuietSignal(w, COMMAND_STORE, m);
    assert m == w.m.(file := m.file, hart := w.m.hart.(pc := m.hart.pc));
  }

  function FirstWorld(): World { World(Ready(2), [Now(Ready(2))], 0, None) }

  function Written(): World
  {
    WriteStep(FirstWorld());
    Step(FirstWorld(), SignalArrives(COMMAND_STORE)).value
  }

  function Reload(): Event { GuestRuns(KERNEL_START, Command(1), TinyRam(0, 0x0F)) }

  lemma ReloadWritesNothing(w: World)
    ensures Run(w, [Reload()]).Some? && DiskWrites(w, [Reload()]) == []
    ensures Run(w, [Reload()]).value.m
      == w.m.(hart := w.m.hart.(pc := KERNEL_START, x := Command(1)), ram := TinyRam(0, 0x0F))
  {
    assert [Reload()][..0] == [];
    hide TinyRam, Command, WritesBlock;
  }

  /** The hypotheses of the theorem on written and read blocks hold in a run. */
  lemma BlockIsReadBack()
    ensures Run(Written(), [Reload()]).Some?
    ensures WritesThenReads(FirstWorld(), COMMAND_STORE, Written(), [Reload()],
                            Run(Written(), [Reload()]).value, COMMAND_STORE)
  {
    var w, w1 := FirstWorld(), Written();
    WriteStep(w);
    ReloadWritesNothing(w1);
    var v := Run(w1, [Reload()]).value;
    StoresCommand(w.m, 2);
    StoresCommand(v.m, 1);
    BufferIsMapped(w.m.vm, ForRead);
    BufferIsMapped(v.m.vm, ForWrite);
    hide TinyRam, Command, WritesBlock, ReadsBlock, Mapped, Run, Step, DiskWrites, AddressedBlock;
  }
}
