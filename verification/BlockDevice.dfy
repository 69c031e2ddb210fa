/**
 * The block device against a disk of 512-byte blocks: what each command does to every block and to
 * the buffer, and what the disk holds after any run.
 */
module BlockDevice {
  import opened Words
  import opened Memory
  import opened HostVm
  import opened Bits
  import opened Isa
  import opened Sv39
  import opened Machine
  import opened Signals
  import opened Runs

  type Block = b: seq<Byte> | |b| == BLOCK_SIZE witness seq(BLOCK_SIZE, _ => 0)

  /** A byte of the disk: the file's, or zero beyond its end. */
  function DiskByte(file: File, at: nat): Byte {
    if at < |file| then file[at] else 0
  }

  function DiskBytes(file: File, from: nat, n: nat): (bytes: seq<Byte>)
    ensures |bytes| == n
    ensures forall i :: 0 <= i < n ==> bytes[i] == DiskByte(file, from + i)
  {
    if n == 0 then [] else DiskBytes(file, from, n - 1) + [DiskByte(file, from + n - 1)]
  }

  function BlockAt(file: File, id: nat): Block {
    DiskBytes(file, BLOCK_SIZE * id, BLOCK_SIZE)
  }

  /** The front of a block replaced. */
  function Overwrite(block: Block, data: seq<Byte>): Block
    requires |data| <= BLOCK_SIZE
  {
    data + block[|data|..]
  }

  lemma WriteAtBytes(file: File, offset: nat, data: seq<Byte>, at: nat)
    ensures DiskByte(WriteAt(file, offset, data), at)
      == if offset <= at < offset + |data| then data[at - offset] else DiskByte(file, at)
  {
  }

  lemma BlocksAreDisjoint(id: nat, other: nat, i: nat, n: nat)
    requires i < BLOCK_SIZE && n <= BLOCK_SIZE
    ensures BLOCK_SIZE * id <= BLOCK_SIZE * other + i < BLOCK_SIZE * id + n <==> other == id && i < n
  {
    if other < id {
      assert BLOCK_SIZE * other + BLOCK_SIZE <= BLOCK_SIZE * id;
    } else if other > id {
      assert BLOCK_SIZE * id + BLOCK_SIZE <= BLOCK_SIZE * other;
    }
  }

  /** Writing at a block's offset replaces the front of that block and no other byte of any block. */
  lemma WriteAtBlock(file: File, id: nat, data: seq<Byte>, other: nat)
    requires |data| <= BLOCK_SIZE
    ensures BlockAt(WriteAt(file, BLOCK_SIZE * id, data), other)
      == if other == id then Overwrite(BlockAt(file, id), data) else BlockAt(file, other)
  {
    var after := BlockAt(WriteAt(file, BLOCK_SIZE * id, data), other);
    var expected := if other == id then Overwrite(BlockAt(file, id), data) else BlockAt(file, other);
    forall i | 0 <= i < BLOCK_SIZE ensures after[i] == expected[i] {
      WriteAtBytes(file, BLOCK_SIZE * id, data, BLOCK_SIZE * other + i);
      BlocksAreDisjoint(id, other, i, |data|);
    }
    assert after == expected;
  }

  // ---- 64-bit offsets ----

  const ID_PERIOD: int := 0x80_0000_0000_0000
  const ID_LIMIT: int := 0x40_0000_0000_0000

  /** The block a command really addresses: ids repeat with period 2^55 and the upper half is refused. */
  function AddressedBlock(id: Word): (block: Option<nat>)
    ensures id < ID_LIMIT ==> block == Some(id)
  {
    if id % ID_PERIOD < ID_LIMIT then Some(id % ID_PERIOD) else None
  }

  lemma OffsetOfBlock(id: Word)
    ensures OffsetAccepted(BlockOffset(id)) <==> AddressedBlock(id).Some?
    ensures AddressedBlock(id).Some? ==> BlockOffset(id) == BLOCK_SIZE * AddressedBlock(id).value
  {
    var q, r := id / ID_PERIOD, id % ID_PERIOD;
    assert BLOCK_SIZE * id == q * TWO_64 + BLOCK_SIZE * r;
  }

  // ---- buffers in guest memory ----

  /** The bytes of a buffer lie at different RAM offsets, even when it spans two mappings of one frame. */
  lemma BufferBytesAreDistinct(vm: HostVm, buf: int, i: nat, j: nat, use: Use, use': Use)
    requires i < j < BLOCK_SIZE
    requires BufferByte(vm, buf, i, use).Some? && BufferByte(vm, buf, j, use').Some?
    ensures BufferByte(vm, buf, i, use).value != BufferByte(vm, buf, j, use').value
  {
    assert BufferByte(vm, buf, i, use).value % PAGE == (buf + i) % PAGE;
    assert BufferByte(vm, buf, j, use').value % PAGE == (buf + j) % PAGE;
  }

  lemma {:induction false} CopyInByte(ram: Ram, vm: HostVm, buf: int, n: nat, i: nat)
    requires Mapped(vm, buf, n, ForRead) && i < n
    ensures CopyIn(ram, vm, buf, n)[i] == ram[BufferByte(vm, buf, i, ForRead).value]
  {
    if i < n - 1 { CopyInByte(ram, vm, buf, n - 1, i); }
  }

  /** A copied byte is where it belongs, whatever is copied after it. */
  lemma {:induction false} CopyOutByte(ram: Ram, vm: HostVm, buf: int, data: seq<Byte>, i: nat)
    requires |data| <= BLOCK_SIZE && Mapped(vm, buf, |data|, ForWrite) && i < |data|
    ensures CopyOut(ram, vm, buf, data)[BufferByte(vm, buf, i, ForWrite).value] == data[i]
  {
    var last := |data| - 1;
    if i < last {
      CopyOutByte(ram, vm, buf, data[..last], i);
      BufferBytesAreDistinct(vm, buf, i, last, ForWrite, ForWrite);
    }
  }

  predicate InBuffer(vm: HostVm, buf: int, n: nat, offset: int) {
    exists i :: 0 <= i < n && BufferByte(vm, buf, i, ForWrite) == Some(offset)
  }

  /** Nothing outside the buffer changes. */
  lemma {:induction false} CopyOutFrame(ram: Ram, vm: HostVm, buf: int, data: seq<Byte>, offset: int)
    requires Mapped(vm, buf, |data|, ForWrite) && 0 <= offset < RAM_SIZE && !InBuffer(vm, buf, |data|, offset)
    ensures CopyOut(ram, vm, buf, data)[offset] == ram[offset]
  {
    if data != [] {
      CopyOutFrame(ram, vm, buf, data[..|data| - 1], offset);
    }
  }

  // ---- the two commands ----

  /** What a write command stores: a block number and the readable front of the buffer. */
  datatype BlockWrite = BlockWrite(id: nat, data: seq<Byte>)

  function WriteOf(m: Machine): (w: BlockWrite)
    requires AddressedBlock(m.blockId).Some?
    ensures |w.data| <= BLOCK_SIZE
  {
    BlockWrite(AddressedBlock(m.blockId).value,
               CopyIn(m.ram, m.vm, m.blockBuf, Reachable(m.vm, m.blockBuf, ForRead, BLOCK_SIZE)))
  }

  function AfterWrite(w: BlockWrite, id: nat, block: Block): Block
    requires |w.data| <= BLOCK_SIZE
  {
    if w.id == id then Overwrite(block, w.data) else block
  }

  /** A write command replaces the front of the addressed block with the buffer, and nothing else. */
  lemma WriteCommand(m: Machine, id: nat)
    ensures BlockTransfer(m, 2).Next?
    ensures BlockTransfer(m, 2).m == m.(file := BlockTransfer(m, 2).m.file)
    ensures BlockAt(BlockTransfer(m, 2).m.file, id) ==
      if AddressedBlock(m.blockId).Some? then AfterWrite(WriteOf(m), id, BlockAt(m.file, id)) else BlockAt(m.file, id)
  {
    OffsetOfBlock(m.blockId);
    hide BlockOffset, BlockAt, WriteAt;
    if AddressedBlock(m.blockId).Some? {
      var w := WriteOf(m);
      WriteAtBlock(m.file, w.id, w.data, id);
      if w.data == [] { assert Overwrite(BlockAt(m.file, id), w.data) == BlockAt(m.file, id); }
    }
  }

  /** How many bytes a read command delivers: what the file and the writable front of the buffer allow. */
  function ReadLength(m: Machine): (n: nat)
    ensures n <= BLOCK_SIZE && Mapped(m.vm, m.blockBuf, n, ForWrite)
  {
    if AddressedBlock(m.blockId).None? then 0
    else Reachable(m.vm, m.blockBuf, ForWrite, Available(m.file, BLOCK_SIZE * AddressedBlock(m.blockId).value))
  }

  lemma DeliveredIsBlock(file: File, id: nat, n: nat)
    requires n > 0 && n <= Available(file, BLOCK_SIZE * id)
    ensures file[BLOCK_SIZE * id..BLOCK_SIZE * id + n] == BlockAt(file, id)[..n]
  {
  }

  lemma ReadResult(m: Machine)
    ensures BlockTransfer(m, 1) == Next(m.(ram :=
      if ReadLength(m) == 0 then m.ram
      else CopyOut(m.ram, m.vm, m.blockBuf, BlockAt(m.file, AddressedBlock(m.blockId).value)[..ReadLength(m)])))
  {
    OffsetOfBlock(m.blockId);
    if AddressedBlock(m.blockId).Some? {
      var id := AddressedBlock(m.blockId).value;
      if ReadLength(m) > 0 { DeliveredIsBlock(m.file, id, ReadLength(m)); }
    }
    hide BlockOffset, BufferByte, Mapped, BlockAt, CopyOut, AddressedBlock;
  }

  /**
   * A read command fills the front of the buffer with the front of the addressed block; no other byte
   * of RAM changes, and nor does anything else.
   */
  lemma ReadCommand(m: Machine)
    ensures BlockTransfer(m, 1).Next?
    ensures BlockTransfer(m, 1).m == m.(ram := BlockTransfer(m, 1).m.ram)
    ensures forall i :: 0 <= i < ReadLength(m) ==>
      BlockTransfer(m, 1).m.ram[BufferByte(m.vm, m.blockBuf, i, ForWrite).value]
        == BlockAt(m.file, AddressedBlock(m.blockId).value)[i]
    ensures forall at :: 0 <= at < RAM_SIZE && !InBuffer(m.vm, m.blockBuf, ReadLength(m), at) ==>
      BlockTransfer(m, 1).m.ram[at] == m.ram[at]
  {
    ReadResult(m);
    var n := ReadLength(m);
    var ram := BlockTransfer(m, 1).m.ram;
    if n > 0 {
      var data := BlockAt(m.file, AddressedBlock(m.blockId).value)[..n];
      hide BlockTransfer, ReadLength, AddressedBlock, BlockAt, Mapped, BufferByte;
      forall i | 0 <= i < n ensures ram[BufferByte(m.vm, m.blockBuf, i, ForWrite).value] == data[i] {
        CopyOutByte(m.ram, m.vm, m.blockBuf, data, i);
      }
      forall at | 0 <= at < RAM_SIZE && !InBuffer(m.vm, m.blockBuf, n, at) ensures ram[at] == m.ram[at] {
        CopyOutFrame(m.ram, m.vm, m.blockBuf, data, at);
      }
    }
  }

  /** A whole block is delivered when the file has it and the buffer is mapped. */
  lemma ReadsWholeBlock(m: Machine, id: nat)
    requires AddressedBlock(m.blockId) == Some(id) && BLOCK_SIZE * (id + 1) <= |m.file|
    requires Mapped(m.vm, m.blockBuf, BLOCK_SIZE, ForWrite)
    ensures ReadLength(m) == BLOCK_SIZE
  {
    OffsetOfBlock(m.blockId);
    ReachableAll(m.vm, m.blockBuf, ForWrite, BLOCK_SIZE);
    hide BufferByte, Mapped, AddressedBlock;
  }

  lemma ReachableAll(vm: HostVm, buf: int, use: Use, n: nat)
    requires Mapped(vm, buf, n, use)
    ensures Reachable(vm, buf, use, n) == n
  {
    hide BufferByte;
  }

  // ---- the disk over a run ----

  /** The signal is a store of 2 to the command register with an acceptable block id. */
  predicate WritesBlock(m: Machine, s: Signal) {
    s.Fault? && AccessOf(m, s) == Store && StoreSource(s.code).Some?
    && StoreData(m.hart, StoreSource(s.code).value) == 2 && AddressedBlock(m.blockId).Some?
    && match LookUp(m.ram, m.hart.csrs.satp, s.va) case Found(pa, _) => pa == BLOCK_COMMAND case _ => false
  }

  predicate IsWriteCommand(m: Machine, access: Access, pa: int, code: Code) {
    access == Store && StoreSource(code).Some? && StoreData(m.hart, StoreSource(code).value) == 2 && pa == BLOCK_COMMAND
  }

  lemma TransferFile(m: Machine, command: Word)
    ensures BlockTransfer(m, command).Next? && command != 2 ==> BlockTransfer(m, command).m.file == m.file
  {
    hide Pread, Pwrite, BlockOffset;
  }

  lemma DeviceFile(m: Machine, access: Access, pa: int, code: Code)
    requires OnDeviceFault(m, access, pa, code).Next?
    ensures BlockTransfer(m, 2).Next?
    ensures OnDeviceFault(m, access, pa, code).m.file ==
      if IsWriteCommand(m, access, pa, code) then BlockTransfer(m, 2).m.file else m.file
  {
    WriteCommand(m, 0);
    TransferFile(m, StoreData(m.hart, StoreSource(code).value));
    hide BlockTransfer, StoreSource, StoreData, StoreLength, BlockAt, AfterWrite, WriteOf, AddressedBlock;
  }

  /** Only device faults touch the file. */
  lemma DispatchFile(m: Machine, s: Signal)
    requires Dispatch(m, s).Next?
    ensures match LookUp(m.ram, m.hart.csrs.satp, if s.Fault? then s.va else 0)
      case Found(pa, _) =>
        if s.Fault? && !InRam(pa) then
          OnDeviceFault(m, AccessOf(m, s), pa, s.code).Next?
          && Dispatch(m, s).m.file == OnDeviceFault(m, AccessOf(m, s), pa, s.code).m.file
        else Dispatch(m, s).m.file == m.file
      case _ => Dispatch(m, s).m.file == m.file
  {
    hide LookUp, Classify, PageFor, PageAddress, Permits, Decode, Execute, DropsTranslations, OnDeviceFault, Trap;
  }

  lemma DispatchOnDisk(m: Machine, s: Signal, id: nat)
    requires Dispatch(m, s).Next?
    ensures BlockAt(Dispatch(m, s).m.file, id) ==
      if WritesBlock(m, s) then AfterWrite(WriteOf(m), id, BlockAt(m.file, id)) else BlockAt(m.file, id)
  {
    WriteCommand(m, id);
    DispatchFile(m, s);
    if s.Fault? && LookUp(m.ram, m.hart.csrs.satp, s.va).Found? {
      var pa := LookUp(m.ram, m.hart.csrs.satp, s.va).pa;
      if !InRam(pa) { DeviceFile(m, AccessOf(m, s), pa, s.code); }
    }
    hide Dispatch, OnDeviceFault, BlockAt, AfterWrite, WriteOf, LookUp, Classify, BlockTransfer, StoreSource;
    hide StoreData, AddressedBlock;
  }

  /** The block writes of a run, in order. */
  function DiskWrites(w: World, events: seq<Event>): (writes: seq<BlockWrite>)
    ensures forall k :: 0 <= k < |writes| ==> |writes[k].data| <= BLOCK_SIZE
  {
    if events == [] then []
    else
      var last := |events| - 1;
      DiskWrites(w, events[..last]) +
      match Run(w, events[..last])
      case Some(v) =>
        if events[last].SignalArrives? && WritesBlock(v.m, events[last].s) then [WriteOf(v.m)] else []
      case None => []
  }

  /** A block after a sequence of writes: the last one to it wins, over what was there before. */
  function Replay(writes: seq<BlockWrite>, id: nat, block: Block): Block
    requires forall k :: 0 <= k < |writes| ==> |writes[k].data| <= BLOCK_SIZE
  {
    if writes == [] then block
    else AfterWrite(writes[|writes| - 1], id, Replay(writes[..|writes| - 1], id, block))
  }

  lemma StepOnDisk(w: World, e: Event, id: nat)
    requires Step(w, e).Some?
    ensures BlockAt(Step(w, e).value.m.file, id) ==
      if e.SignalArrives? && WritesBlock(w.m, e.s) then AfterWrite(WriteOf(w.m), id, BlockAt(w.m.file, id))
      else BlockAt(w.m.file, id)
  {
    if e.SignalArrives? {
      DispatchOnDisk(w.m, e.s, id);
      hide Dispatch, BlockAt, AfterWrite, WriteOf, WritesBlock, UnmapAround, RequestAfter, Trap;
    }
  }

  /**
   * The disk over any run from any state: every block holds what the run's writes to it left, in
   * order, and blocks that were not written hold what they held at the start.
   */
  lemma {:induction false} DiskFollowsWrites(start: World, events: seq<Event>, w: World, id: nat)
    requires Run(start, events) == Some(w)
    ensures BlockAt(w.m.file, id) == Replay(DiskWrites(start, events), id, BlockAt(start.m.file, id))
  {
    hide Step, BlockAt, AfterWrite, WriteOf, WritesBlock;
    if events != [] {
      var last := |events| - 1;
      var v := Run(start, events[..last]).value;
      var before := DiskWrites(start, events[..last]);
      DiskFollowsWrites(start, events[..last], v, id);
      StepOnDisk(v, events[last], id);
      if events[last].SignalArrives? && WritesBlock(v.m, events[last].s) {
        assert DiskWrites(start, events)[..|before|] == before;
      } else {
        assert DiskWrites(start, events) == before;
      }
    }
  }

  // ---- written, then read ----

  /** The signal is a store of 1 to the command register. */
  predicate ReadsBlock(m: Machine, s: Signal) {
    s.Fault? && AccessOf(m, s) == Store && StoreSource(s.code).Some?
    && StoreData(m.hart, StoreSource(s.code).value) == 1
    && match LookUp(m.ram, m.hart.csrs.satp, s.va) case Found(pa, _) => pa == BLOCK_COMMAND case _ => false
  }

  lemma DispatchReads(m: Machine, s: Signal)
    requires ReadsBlock(m, s)
    ensures Dispatch(m, s).Next? && BlockTransfer(m, 1).Next?
    ensures Dispatch(m, s).m.ram == BlockTransfer(m, 1).m.ram
  {
    ReadCommand(m);
    hide LookUp, Classify, StoreSource, StoreLength, StoreData, BlockTransfer, ReadLength, AddressedBlock, BlockAt;
  }

  lemma DispatchesToDevice(m: Machine, s: Signal)
    requires WritesBlock(m, s)
    ensures Dispatch(m, s) == OnDeviceFault(m, Store, BLOCK_COMMAND, s.code)
  {
    hide LookUp, Classify, OnDeviceFault, StoreSource, StoreData, AddressedBlock;
  }

  lemma DeviceWrites(m: Machine, code: Code)
    requires IsWriteCommand(m, Store, BLOCK_COMMAND, code)
    ensures BlockTransfer(m, 2).Next?
    ensures OnDeviceFault(m, Store, BLOCK_COMMAND, code) == Next(Advance(BlockTransfer(m, 2).m, code))
  {
    WriteCommand(m, 0);
    hide StoreSource, StoreData, BlockTransfer, BlockAt, Advance;
  }

  /** A write command leaves everything but the file and pc as it was. */
  lemma DispatchWrites(m: Machine, s: Signal)
    requires WritesBlock(m, s)
    ensures BlockTransfer(m, 2).Next?
    ensures Dispatch(m, s) == Next(m.(file := BlockTransfer(m, 2).m.file,
      hart := m.hart.(pc := Wrap(m.hart.pc + StoreLength(s.code)))))
  {
    DispatchesToDevice(m, s);
    DeviceWrites(m, s.code);
    WriteCommand(m, 0);
    hide Dispatch, OnDeviceFault, BlockTransfer, BlockAt, LookUp, Classify, StoreSource, StoreData, StoreLength;
  }

  lemma StepReads(w: World, s: Signal)
    requires ReadsBlock(w.m, s)
    ensures Step(w, SignalArrives(s)).Some? && BlockTransfer(w.m, 1).Next?
    ensures Step(w, SignalArrives(s)).value.m.ram == BlockTransfer(w.m, 1).m.ram
  {
    DispatchReads(w.m, s);
    hide Dispatch, BlockTransfer, UnmapAround, RequestAfter, Trap;
  }

  /** Writes to other blocks leave a block alone. */
  lemma {:induction false} ReplayOfOthers(writes: seq<BlockWrite>, id: nat, block: Block)
    requires forall k :: 0 <= k < |writes| ==> |writes[k].data| <= BLOCK_SIZE && writes[k].id != id
    ensures Replay(writes, id, block) == block
  {
    if writes != [] { ReplayOfOthers(writes[..|writes| - 1], id, block); }
  }

  // The file never shrinks, and a whole block written is then inside it.

  lemma WriteAtLength(file: File, offset: nat, data: seq<Byte>)
    ensures |WriteAt(file, offset, data)| >= |file| && |WriteAt(file, offset, data)| >= offset + |data|
  {
  }

  lemma WriteLength(m: Machine)
    ensures BlockTransfer(m, 2).Next? && |BlockTransfer(m, 2).m.file| >= |m.file|
    ensures AddressedBlock(m.blockId).Some? && |WriteOf(m).data| == BLOCK_SIZE ==>
      |BlockTransfer(m, 2).m.file| >= BLOCK_SIZE * (AddressedBlock(m.blockId).value + 1)
  {
    OffsetOfBlock(m.blockId);
    if AddressedBlock(m.blockId).Some? {
      var w := WriteOf(m);
      WriteAtLength(m.file, BLOCK_SIZE * w.id, w.data);
    }
    hide BlockOffset, WriteAt, AddressedBlock;
  }

  lemma DispatchGrowsFile(m: Machine, s: Signal)
    requires Dispatch(m, s).Next?
    ensures |Dispatch(m, s).m.file| >= |m.file|
    ensures WritesBlock(m, s) ==> BlockTransfer(m, 2).Next? && Dispatch(m, s).m.file == BlockTransfer(m, 2).m.file
  {
    DispatchFile(m, s);
    WriteLength(m);
    if s.Fault? && LookUp(m.ram, m.hart.csrs.satp, s.va).Found? {
      var pa := LookUp(m.ram, m.hart.csrs.satp, s.va).pa;
      if !InRam(pa) { DeviceFile(m, AccessOf(m, s), pa, s.code); }
    }
    hide Dispatch, OnDeviceFault, WriteOf, LookUp, Classify, BlockTransfer, StoreSource, StoreData, AddressedBlock;
  }

  lemma StepFile(w: World, s: Signal)
    requires Step(w, SignalArrives(s)).Some?
    ensures Dispatch(w.m, s).Next? && Step(w, SignalArrives(s)).value.m.file == Dispatch(w.m, s).m.file
  {
    hide Dispatch, UnmapAround, RequestAfter, Trap;
  }

  lemma {:induction false} FileNeverShrinks(start: World, events: seq<Event>, w: World)
    requires Run(start, events) == Some(w)
    ensures |w.m.file| >= |start.m.file|
  {
    hide Step, Dispatch;
    if events != [] {
      var last := |events| - 1;
      var v := Run(start, events[..last]).value;
      FileNeverShrinks(start, events[..last], v);
      StepGrowsFile(v, events[last]);
    }
  }

  lemma StepGrowsFile(w: World, e: Event)
    requires Step(w, e).Some?
    ensures |Step(w, e).value.m.file| >= |w.m.file|
  {
    if e.SignalArrives? {
      StepFile(w, e.s);
      DispatchGrowsFile(w.m, e.s);
      hide Handle, Dispatch, Flushes, RequestAfter;
    }
  }

  /** What a whole-block write leaves behind, in any later world of a run without further writes to the block. */
  lemma WrittenBlockStays(w: World, s: Signal, w1: World, events: seq<Event>, v: World, id: nat)
    requires WritesBlock(w.m, s) && AddressedBlock(w.m.blockId) == Some(id)
    requires Mapped(w.m.vm, w.m.blockBuf, BLOCK_SIZE, ForRead)
    requires Step(w, SignalArrives(s)) == Some(w1) && Run(w1, events) == Some(v)
    requires forall k :: 0 <= k < |DiskWrites(w1, events)| ==> DiskWrites(w1, events)[k].id != id
    ensures BlockAt(v.m.file, id) == CopyIn(w.m.ram, w.m.vm, w.m.blockBuf, BLOCK_SIZE)
    ensures BLOCK_SIZE * (id + 1) <= |v.m.file|
  {
    ReachableAll(w.m.vm, w.m.blockBuf, ForRead, BLOCK_SIZE);
    assert WriteOf(w.m) == BlockWrite(id, CopyIn(w.m.ram, w.m.vm, w.m.blockBuf, BLOCK_SIZE)) by {
      hide Mapped, CopyIn, AddressedBlock;
    }
    StepFile(w, s);
    DispatchGrowsFile(w.m, s);
    DispatchOnDisk(w.m, s, id);
    WriteLength(w.m);
    FileNeverShrinks(w1, events, v);
    DiskFollowsWrites(w1, events, v, id);
    ReplayOfOthers(DiskWrites(w1, events), id, BlockAt(w1.m.file, id));
    hide Step, Run, Dispatch, WritesBlock, BlockAt, BlockTransfer, CopyIn, Mapped, DiskWrites, Replay;
    hide AddressedBlock, WriteOf;
  }

  /**
   * World w handles a write command of a mapped buffer, then events that do not write that block happen,
   * then the world v handles a read command for the block, with a mapped buffer.
   */
  predicate WritesThenReads(w: World, s: Signal, w1: World, events: seq<Event>, v: World, r: Signal) {
    && WritesBlock(w.m, s) && Mapped(w.m.vm, w.m.blockBuf, BLOCK_SIZE, ForRead)
    && Step(w, SignalArrives(s)) == Some(w1) && Run(w1, events) == Some(v)
    && (forall k :: 0 <= k < |DiskWrites(w1, events)| ==>
      Some(DiskWrites(w1, events)[k].id) != AddressedBlock(w.m.blockId))
    && ReadsBlock(v.m, r) && AddressedBlock(v.m.blockId) == AddressedBlock(w.m.blockId)
    && Mapped(v.m.vm, v.m.blockBuf, BLOCK_SIZE, ForWrite)
  }

  /**
   * A block written by a run and later read, with any events in between that do not write that block,
   * into any mapped buffer: the guest finds there, byte for byte, what its buffer held at the write.
   */
  lemma ReadsBackWhatWasWritten(w: World, s: Signal, w1: World, events: seq<Event>, v: World, r: Signal, i: nat)
    requires WritesThenReads(w, s, w1, events, v, r) && i < BLOCK_SIZE
    ensures Step(v, SignalArrives(r)).Some?
    ensures Step(v, SignalArrives(r)).value.m.ram[BufferByte(v.m.vm, v.m.blockBuf, i, ForWrite).value]
      == w.m.ram[BufferByte(w.m.vm, w.m.blockBuf, i, ForRead).value]
  {
    var id := AddressedBlock(w.m.blockId).value;
    WrittenBlockStays(w, s, w1, events, v, id);
    hide Step, Run, WritesBlock, ReadsBlock, BlockAt, BlockTransfer, CopyIn, DiskWrites, AddressedBlock, BufferByte;
    hide Mapped;
    StepReads(v, r);
    ReadsWholeBlock(v.m, id);
    ReadCommand(v.m);
    CopyInByte(w.m.ram, w.m.vm, w.m.blockBuf, BLOCK_SIZE, i);
  }

  // ---- the store instructions ----

  predicate IsCsdsp(code: Code) { code % 4 == 2 && RvcFunct3(code) == 7 }

  /** The source register of sd, c.sd and c.sdsp by the manuals' encodings. */
  function DoublewordStore(code: Code): Option<RegNumber> {
    if code % 4 == 3 then
      if code % 0x80 == 0x23 && Funct3(code) == 3 then Some((code / 0x10_0000) % 32) else None
    else if code % 4 == 0 && RvcFunct3(code) == 7 then Some(8 + (code / 4) % 8)
    else if IsCsdsp(code) then Some((code / 4) % 32)
    else None
  }

  function InstructionLength(code: Code): int { if code % 4 == 3 then 4 else 2 }

  lemma StoreQuadrants(va: Word, pc: Word, code: Code)
    requires Classify(va, pc, code) == Store
    ensures code % 2 == 1 <==> code % 4 == 3
    ensures code % 4 == 2 ==> RvcFunct3(code) != 3
  {
  }

  /**
   * For a fault classified as a store the emulator's decoder finds the source register of the
   * doubleword store at pc, unless it is c.sdsp, which it takes for no store at all; and pc advances
   * by that instruction's length.
   */
  lemma DecodesStores(va: Word, pc: Word, code: Code)
    requires Classify(va, pc, code) == Store
    ensures StoreSource(code) == DoublewordStore(code) <==> !IsCsdsp(code)
    ensures IsCsdsp(code) ==> StoreSource(code) == None
    ensures StoreLength(code) == InstructionLength(code)
  {
    StoreQuadrants(va, pc, code);
    hide Classify, Funct3;
  }

  /** c.sdsp ra, 0(sp) */
  lemma CsdspIsRejected()
    ensures StoreSource(0xE006) == None && DoublewordStore(0xE006) == Some(1)
  {
  }

  /** The value stored is the source register's, except that a store of x0 stores pc. */
  lemma StoresRegister(h: Hart, rs2: RegNumber)
    ensures StoreData(h, rs2) == h.x[rs2] <==> rs2 != 0 || h.pc == 0
  {
  }
}
