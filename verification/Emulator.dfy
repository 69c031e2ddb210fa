/**
 * The emulator itself, in the source's form: CSRs as words, the saved registers with pc in slot 0,
 * and signal handlers that update them in place. Each method is proved to do what the structured
 * machine of module Machine does.
 */
module Emulator {
  import opened Words
  import opened Memory
  import opened Bits
  import opened Isa
  import opened CsrWords
  import opened Sv39
  import opened HostVm
  import opened Machine
  import AccessKinds
  import Walker
  import Effects

  /** The integer registers behind a saved register array: slot 0 is pc, register 0 reads as 0. */
  function Visible(saved: seq<Word>): Regs
    requires |saved| == 32
  {
    [0] + saved[1..]
  }

  lemma VisibleAfterPc(saved: seq<Word>, v: Word)
    requires |saved| == 32
    ensures Visible(saved[0 := v]) == Visible(saved)
  {
  }

  lemma VisibleAfterReg(saved: seq<Word>, rd: RegNumber, v: Word)
    requires |saved| == 32 && rd != 0
    ensures Visible(saved[rd := v]) == SetReg(Visible(saved), rd, v)
  {
  }

  lemma CodeFields(code: Code)
    ensures code == InsOpcode(code) + 0x80 * InsRd(code) + 0x1000 * InsFunct3(code) + 0x8000 * InsRs1(code)
      + 0x10_0000 * InsRs2(code) + 0x200_0000 * InsFunct7(code)
  {
    assert code / 0x1000 == (code / 0x80) / 32;
    assert code / 0x8000 == (code / 0x1000) / 8;
    assert code / 0x10_0000 == (code / 0x8000) / 32;
    assert code / 0x200_0000 == (code / 0x10_0000) / 32;
  }

  // ---- the source's field tests on an instruction, against the manuals' encodings ----

  predicate IsSystem(code: Code) { InsOpcode(code) == OPCODE_SYSTEM }

  predicate IsSfenceVma(code: Code) {
    IsSystem(code) && InsFunct3(code) == FUNCT3_NOT_CSR && InsFunct7(code) == FUNCT7_SFENCE_VMA && InsRd(code) == 0
  }

  predicate IsWfi(code: Code) {
    && IsSystem(code) && InsFunct3(code) == FUNCT3_NOT_CSR
    && InsFunct7(code) == FUNCT7_WFI && InsRs2(code) == RS2_WFI && InsRs1(code) == 0 && InsRd(code) == 0
  }

  predicate IsSret(code: Code) {
    && IsSystem(code) && InsFunct3(code) == FUNCT3_NOT_CSR
    && InsFunct7(code) == FUNCT7_SRET && InsRs2(code) == RS2_SRET && InsRs1(code) == 0 && InsRd(code) == 0
  }

  predicate IsCsrAccess(code: Code) {
    IsSystem(code) && InsFunct3(code) != FUNCT3_NOT_CSR && CsrOpField(InsFunct3(code)) != 0
  }

  lemma FenceFields(rs: int)
    requires 0 <= rs < 1024
    ensures var code := 0x1200_0073 + 0x8000 * rs; IsSfenceVma(code)
  {
    var code := 0x1200_0073 + 0x8000 * rs;
    assert code % 0x80 == 0x73 && code / 0x80 == 0x24_0000 + 0x100 * rs;
    assert code / 0x1000 == 0x1_2000 + 8 * rs;
    assert code / 0x200_0000 == 9;
  }

  lemma DecodesFence(code: Code)
    ensures IsSfenceVma(code) <==> 0x1200_0073 <= code < 0x1400_0073 && (code - 0x1200_0073) % 0x8000 == 0
  {
    if IsSfenceVma(code) {
      CodeFields(code);
      assert code == 0x1200_0073 + 0x8000 * (InsRs1(code) + 32 * InsRs2(code));
    } else if 0x1200_0073 <= code < 0x1400_0073 && (code - 0x1200_0073) % 0x8000 == 0 {
      FenceFields((code - 0x1200_0073) / 0x8000);
      assert false;
    }
  }

  lemma DecodesWord(code: Code)
    ensures IsWfi(code) <==> code == 0x1050_0073
    ensures IsSret(code) <==> code == 0x1020_0073
  {
    CodeFields(code);
  }

  function OpOf(code: Code): CsrOp
    requires IsCsrAccess(code)
  {
    var op := CsrOpField(InsFunct3(code));
    if op == CSR_OP_RW then Swap else if op == CSR_OP_RS then SetBits else ClearBits
  }

  function OperandOf(code: Code): Operand {
    if CsrUsesUimm(InsFunct3(code)) then Immediate(InsRs1(code)) else FromReg(InsRs1(code))
  }

  /** Testing fields one by one recognises exactly the manuals' instruction words. */
  lemma DecodesByFields(code: Code)
    ensures Decode(code) ==
      if IsSfenceVma(code) then Some(SfenceVma)
      else if IsWfi(code) then Some(Wfi)
      else if IsSret(code) then Some(Instr.Sret)
      else if IsCsrAccess(code) then Some(CsrAccess(OpOf(code), InsCsr(code), InsRd(code), OperandOf(code)))
      else None
  {
    DecodesFence(code);
    DecodesWord(code);
  }

  // ---- the walker's sign check ----

  function Signed(w: int): int { if w >= 0x8000_0000_0000_0000 then w - TWO_64 else w }

  /** va << 24 >> 24 on a signed 64-bit integer. */
  function ShiftedBack(va: Word): int { Signed((va * 0x100_0000) % TWO_64) / 0x100_0000 }

  lemma ShiftLeft(va: Word)
    ensures (va * 0x100_0000) % TWO_64 == (va % 0x100_0000_0000) * 0x100_0000
  {
    var high, low := va / 0x100_0000_0000, va % 0x100_0000_0000;
    assert va * 0x100_0000 == high * TWO_64 + low * 0x100_0000;
  }

  /** The round trip keeps va exactly when bits 63 to 39 agree. */
  lemma SignCheck(va: Word)
    ensures Signed(va) == ShiftedBack(va) <==> SignExtended39(va)
  {
    ShiftLeft(va);
  }

  lemma VpnsByLevel(va: Word)
    ensures GetVaPpn0(va) == Vpn(va, 2) && GetVaPpn1(va) == Vpn(va, 1) && GetVaPpn2(va) == Vpn(va, 0)
    ensures forall level {:trigger Vpn(va, level)} :: 0 <= level <= 2 ==> 0 <= Vpn(va, level) < 512
  {
  }

  /** The stub range from its start and size; the end is a 64-bit sum. */
  function StubOf(start: int, size: int): StubRange { StubRange(start, (start + size) % TWO_64) }

  lemma SplitsDelay(delay: int)
    requires 0 <= delay
    ensures delay == 0 <==> delay / BILLION == 0 && delay % BILLION == 0
  {
  }

  lemma StoresPending(sip: Word, pending: bool)
    requires ValidTimerBits(sip)
    ensures var v := SetSti(sip, if pending then 1 else 0);
      0 <= v < TWO_64 && ValidTimerBits(v) && TimerField(v) == pending
  {
  }

  lemma OtherLengthsAreNotSystem(code: Code)
    requires !(code % 4 == 3 && code % 32 != 31)
    ensures !IsSystem(code)
  {
  }

  lemma NotSystemDoesNotDecode(code: Code)
    requires !IsSystem(code)
    ensures Decode(code) == None
  {
    DecodesByFields(code);
  }

  /** Compressed and longer-than-32-bit encodings are no privileged instructions. */
  lemma OtherLengthsDoNotDecode(m: Machine, code: Code)
    requires !(code % 4 == 3 && code % 32 != 31)
    ensures OnPrivileged(m, code).Halt?
  {
    OtherLengthsAreNotSystem(code);
    NotSystemDoesNotDecode(code);
  }

  lemma LowHalf(code: Code)
    ensures RvcLooksLikeLoad(code % 0x1_0000) == LooksLikeRvcLoad(code)
    ensures RvcLooksLikeStore(code % 0x1_0000) == LooksLikeRvcStore(code)
  {
    assert code == code / 0x1_0000 * 0x1_0000 + code % 0x1_0000;
    assert (code % 0x1_0000) % 4 == code % 4;
    assert code / 0x2000 == code / 0x1_0000 * 8 + (code % 0x1_0000) / 0x2000;
  }

  lemma TimerBits(sip: Word, sie: Word, sstatus: Word)
    ensures GetSti(sip) == 1 <==> TimerField(sip)
    ensures GetSti(sie) == 1 <==> TimerField(sie)
    ensures GetSie(sstatus) == 1 <==> StatusFields(sstatus).sie
  {
  }

  // ---- boot ----

  /** The process cleared around the stub, with the signal stack behind it and RAM at its address. */
  function EntryMappings(process: HostVm, stub: int, size: int): HostVm
    requires ValidStub(StubRange(stub, stub + size)) && ValidStub(StubRange(stub, stub + size + SIGSTACK_SIZE))
  {
    var cleared := UnmapAround(process, StubRange(stub, stub + size));
    var withStack: HostVm := cleared[PageOf(stub + size) := StubPage(0)];
    withStack + RamIdentity()
  }

  lemma StackFollowsStub(image: StubRange, whole: StubRange)
    requires ValidStub(image) && ValidStub(whole)
    requires whole == StubRange(image.start, image.end + SIGSTACK_SIZE)
    ensures StubOf(image.start, image.end - image.start + SIGSTACK_SIZE) == whole
    ensures forall p :: InStub(whole, p) == (InStub(image, p) || p == PageOf(image.end))
  {
  }

  lemma RamOutsideStub(stub: StubRange)
    requires ValidStub(stub) && (stub.end <= RAM_START || RAM_START + RAM_SIZE <= stub.start)
    ensures forall p :: IsRamPage(p) ==> !InStub(stub, p)
  {
  }

  lemma BootMaps(process: HostVm, stub: int, size: int)
    requires ValidStub(StubRange(stub, stub + size)) && ValidStub(StubRange(stub, stub + size + SIGSTACK_SIZE))
    requires stub + size + SIGSTACK_SIZE <= RAM_START || RAM_START + RAM_SIZE <= stub
    requires forall p :: p in process ==> process[p].StubPage?
    requires forall p :: 0 <= p < USER_END / PAGE && InStub(StubRange(stub, stub + size), p) ==> p in process
    ensures BootMappings(EntryMappings(process, stub, size), StubRange(stub, stub + size + SIGSTACK_SIZE))
  {
    UnmapAroundKeepsExactlyStub(process, StubRange(stub, stub + size));
    StackFollowsStub(StubRange(stub, stub + size), StubRange(stub, stub + size + SIGSTACK_SIZE));
    RamOutsideStub(StubRange(stub, stub + size + SIGSTACK_SIZE));
    hide InStub, UnmapAround;
  }

  lemma ZeroDivided(w: int)
    requires w > 0
    ensures 0 / w == 0 && 0 % w == 0
  {
  }

  lemma ZeroVector(z: Word)
    requires z == 0
    ensures ValidVector(z) && VectorFields(z) == TrapVector(0, false)
  {
  }

  lemma ZeroTimerBits(z: Word)
    requires z == 0
    ensures ValidTimerBits(z) && !TimerField(z)
  {
    ZeroDivided(W_STI);
  }

  lemma ZeroSatp(z: Word)
    requires z == 0
    ensures ValidSatp(z) && SpaceFields(z) == AddressSpace(false, 0)
  {
    ZeroDivided(W_MODE);
    ZeroDivided(W_ASID);
  }

  /** sstatus as initialize_priv builds it from zero. */
  lemma InitialStatus(zero: int)
    requires zero == 0
    ensures SetSd(SetXs(SetFs(zero, SSTATUS_XS_DIRTY), SSTATUS_XS_DIRTY), 1) == Pack(zero, zero, zero, zero, zero)
    ensures 0 <= Pack(zero, zero, zero, zero, zero) < TWO_64
  {
    ZeroDivided(W_FS);
    var fs := SetFs(zero, SSTATUS_XS_DIRTY);
    assert fs == 0x6000;
    assert GetXs(fs) == 0;
    var xs := SetXs(fs, SSTATUS_XS_DIRTY);
    assert xs == 0x1_E000;
    assert GetSd(xs) == 0;
  }

  ghost predicate IsReset(f: CsrFile) {
    && f.sepc == 0
    && f.sstatus == Pack(f.sepc, f.sepc, f.sepc, f.sepc, f.sepc)
    && f == CsrFile(f.sstatus, 0, 0, 0, 0, 0, 0, 0, 0)
  }

  lemma ResetStatus(z: int)
    requires z == 0
    ensures var v := Pack(z, z, z, z, z);
      0 <= v < TWO_64 && ValidStatus(v) && StatusFields(v) == Status(false, false, User, false, false)
  {
    PackedFields(z, z, z, z, z);
    var s := StatusFields(Pack(z, z, z, z, z));
    assert !s.sie && !s.spie && !s.sum && !s.mxr;
    assert s.spp == User;
  }

  lemma ResetFields(f: CsrFile, z: Word)
    requires z == 0 && f == CsrFile(Pack(z, z, z, z, z), z, z, z, z, z, z, z, z)
    ensures ValidFile(f)
    ensures Fields(f) == ResetCsrs()
  {
    ResetStatus(z);
    ZeroVector(z);
    ZeroTimerBits(z);
    ZeroSatp(z);
  }

  // ---- frames and file offsets ----

  lemma OffsetFrame(offset: int)
    requires offset % PAGE == 0 && 0 <= offset <= RAM_SIZE - PAGE
    ensures 0 <= offset / PAGE < RAM_SIZE / PAGE
  {
  }

  /** The file offset of a leaf's page is a page boundary inside the RAM file. */
  lemma FrameOffset(pa: int, ppn: int, va: int)
    requires InRam(pa) && pa == ppn * PAGE + va % PAGE
    ensures (ppn * PAGE - RAM_START) % PAGE == 0 && 0 <= ppn * PAGE - RAM_START <= RAM_SIZE - PAGE
    ensures (ppn * PAGE - RAM_START) / PAGE == (pa - RAM_START) / PAGE
    ensures (va - va % PAGE) % PAGE == 0
  {
  }

  /** One level of the lenient walk, as the source's loop body takes it. */
  lemma WalkStep(ram: Ram, table: int, va: Word, level: nat)
    requires table % PAGE == 0 && level <= 2
    ensures !InRam(table) ==> WalkFrom(false, ram, table, va, level) == OutsideRam
    ensures InRam(table) ==>
      var pte := Entry(ram, table, va, level);
      WalkFrom(false, ram, table, va, level) ==
        if !Sv39.Valid(pte) || (!Readable(pte) && Writable(pte)) then Invalid
        else if Readable(pte) || Executable(pte) then Leaf(level, pte)
        else if level == 0 then NoLeaf(pte)
        else (PageMultiple(PtePpn(pte)); WalkFrom(false, ram, PtePpn(pte) * PAGE, va, level - 1))
  {
  }

  /** A walk that finds an entry finds a valid one, which is not zero. */
  lemma LeavesAreNotZero(ram: Ram, table: int, va: Word, level: nat)
    requires table % PAGE == 0 && level <= 2
    ensures match WalkFrom(false, ram, table, va, level)
      case Leaf(_, pte) => pte != 0
      case NoLeaf(pte) => pte != 0
      case _ => true
    decreases level
  {
    if level > 0 && InRam(table) {
      PageMultiple(PtePpn(Entry(ram, table, va, level)));
      LeavesAreNotZero(ram, PtePpn(Entry(ram, table, va, level)) * PAGE, va, level - 1);
    }
  }

  class Emulator {
    const regs: array<Word>

    var stubStart: int
    var stubSize: int
    var privMode: int
    var sstatus: Word
    var sscratch: Word
    var stvec: Word
    var sepc: Word
    var scause: Word
    var stval: Word
    var sip: Word
    var sie: Word
    var satp: Word
    var blockId: Word
    var blockBuf: Word
    var shouldClearVm: bool

    const ram: array<Byte>
    var vm: HostVm
    var timer: Timer
    var file: File
    ghost var log: seq<TrapRecord>

    ghost function Csr(): CsrFile
      reads this
    {
      CsrFile(sstatus, sscratch, stvec, sepc, scause, stval, sip, sie, satp)
    }

    /** What every reachable privileged state satisfies. */
    ghost predicate Valid()
      reads this
    {
      && regs.Length == 32
      && ram.Length == RAM_SIZE
      && (privMode == PRIV_U || privMode == PRIV_S)
      && ValidFile(Csr())
    }

    ghost function HartView(): Hart
      requires regs.Length == 32
      reads this, regs
    {
      Hart(if privMode == PRIV_S then Supervisor else User, regs[0], Visible(regs[..]), Fields(Csr()))
    }

    ghost function View(): Machine
      requires regs.Length == 32 && ram.Length == RAM_SIZE
      reads this, regs, ram
    {
      Machine(HartView(), shouldClearVm, ram[..], vm, StubOf(stubStart, stubSize),
              timer, file, blockId, blockBuf, log)
    }

    /** entrypoint: clear the process around the stub, add the signal stack, map RAM at its address. */
    constructor (stub: int, size: int, ram: array<Byte>, process: HostVm, file: File)
      requires ValidStub(StubRange(stub, stub + size)) && ValidStub(StubRange(stub, stub + size + SIGSTACK_SIZE))
      ensures this.ram == ram && this.file == file && this.vm == EntryMappings(process, stub, size)
      ensures stubStart == stub && stubSize == size + SIGSTACK_SIZE && !shouldClearVm
      ensures timer == Disarmed && stval == 0 && log == []
      ensures regs.Length == 32 && fresh(regs) && regs[0] == KERNEL_START
    {
      vm := EntryMappings(process, stub, size);
      regs := new Word[32];
      stubStart, stubSize := stub, size + SIGSTACK_SIZE;
      this.ram, this.file := ram, file;
      timer := Disarmed;
      blockId, blockBuf, shouldClearVm, log := 0, 0, false, [];
      privMode, sstatus, sscratch, stvec, sepc, scause, stval, satp, sip, sie := 0, 0, 0, 0, 0, 0, 0, 0, 0, 0;
      new;
      regs[0] := KERNEL_START;
    }

    /** initialize_priv; stval keeps the zero of the fresh configuration page. */
    method InitializePriv()
      requires stval == 0
      modifies `privMode, `sstatus, `sscratch, `stvec, `sepc, `scause, `satp, `sip, `sie
      ensures privMode == PRIV_S
      ensures IsReset(Csr())
    {
      privMode := PRIV_S;
      sscratch := 0;
      stvec := 0;
      sepc := 0;
      scause := 0;
      satp := 0;
      sip := 0;
      sie := 0;
      var status := 0;
      InitialStatus(status);
      status := SetFs(status, SSTATUS_XS_DIRTY);
      status := SetXs(status, SSTATUS_XS_DIRTY);
      sstatus := SetSd(status, 1);
    }

    /** The freshly constructed emulator is in a valid state. */
    lemma FreshIsValid()
      requires privMode == PRIV_S && IsReset(Csr()) && regs.Length == 32 && ram.Length == RAM_SIZE
      ensures Valid()
      ensures HartView().csrs == ResetCsrs()
    {
      ResetFields(Csr(), sepc);
    }

    /** Its machine has just booted, if its mappings are those of boot. */
    lemma FreshIsBooted()
      requires regs.Length == 32 && ram.Length == RAM_SIZE && HartView().csrs == ResetCsrs()
      requires privMode == PRIV_S && !shouldClearVm && timer == Disarmed && regs[0] == KERNEL_START && log == []
      requires ValidStub(StubOf(stubStart, stubSize)) && BootMappings(vm, StubOf(stubStart, stubSize))
      ensures Booted(View())
    {
      hide Fields, InStub, IsRamPage, IdentityPage, StubOf, Visible, ResetCsrs;
    }

    // ---- riscv-priv.c: CSRs ----

    method ReadCsr(csr: int) returns (halted: bool, value: Word)
      requires Valid()
      ensures halted <==> CsrAt(csr).None?
      ensures !halted ==> value == Isa.ReadCsr(Fields(Csr()), CsrAt(csr).value)
    {
      halted := false;
      if csr == CSR_SSCRATCH { value := sscratch; }
      else if csr == CSR_STVEC { value := stvec; }
      else if csr == CSR_SEPC { value := sepc; }
      else if csr == CSR_SSTATUS { value := sstatus; }
      else if csr == CSR_SIE { value := sie; }
      else if csr == CSR_SIP { value := sip; }
      else if csr == CSR_SCAUSE { value := scause; }
      else if csr == CSR_STVAL { value := stval; }
      else if csr == CSR_SATP { value := satp; }
      else { return true, 0; }
      assert value == WordAt(Csr(), CsrAt(csr).value);
      WordIsImageOfFields(Csr(), CsrAt(csr).value);
    }

    method WriteCsr(csr: int, value: Word) returns (halted: bool)
      requires Valid()
      modifies `sscratch, `stvec, `sepc, `sstatus, `sie, `sip, `scause, `stval, `satp, `shouldClearVm
      ensures Valid()
      ensures halted <==> CsrAt(csr).None?
      ensures !halted ==> Fields(Csr()) == Isa.WriteCsr(old(Fields(Csr())), CsrAt(csr).value, value)
      ensures !halted ==>
        shouldClearVm == (old(shouldClearVm) || (CsrAt(csr) == Some(Satp) && SatpModeSupported(value)))
    {
      ghost var before := Csr();
      halted := false;
      if csr == CSR_SSCRATCH {
        sscratch := value;
      } else if csr == CSR_STVEC {
        stvec := SanitizeStvec(value);
      } else if csr == CSR_SEPC {
        sepc := value;
      } else if csr == CSR_SSTATUS {
        StoresStatus(value, sstatus);
        sstatus := MaskedStatus(value, sstatus);
      } else if csr == CSR_SIE {
        StoresTimerBits(value, sie);
        sie := MaskedSix(value, sie);
      } else if csr == CSR_SIP {
        StoresTimerBits(value, sip);
        sip := MaskedSix(value, sip);
      } else if csr == CSR_SCAUSE {
        scause := value;
      } else if csr == CSR_STVAL {
        stval := value;
      } else if csr == CSR_SATP {
        StoresSatp(value);
        if GetSatpMode(value) == SATP_MODE_SV39 || GetSatpMode(value) == SATP_MODE_BARE {
          satp := SetSatpAsid(value, 0);
          shouldClearVm := true;
        }
      } else {
        return true;
      }
      assert Csr() == StoreAt(before, CsrAt(csr).value, value);
      StoreIsWrite(before, CsrAt(csr).value, value);
    }

    // ---- riscv-priv.c: traps ----

    function TrapTarget(cause: Word): Word
      reads this
    {
      var base := stvec - StvecMode(stvec);
      if StvecMode(stvec) == STVEC_DIRECT || cause < SCAUSE_IS_INT then base else Wrap(base + cause * 4)
    }

    /** The sstatus part of trap entry: SPP from the mode, SPIE from SIE, SIE off. */
    method StackPrivilege()
      requires Valid()
      modifies `sstatus, `privMode
      ensures sstatus == TrappedStatus(old(sstatus), old(privMode) == PRIV_S)
      ensures privMode == PRIV_S
    {
      TrapStatus(sstatus, privMode == PRIV_S);
      var status: int;
      if privMode == PRIV_S {
        status := SetSpp(sstatus, SSTATUS_SPP_S);
      } else {
        status := SetSpp(sstatus, SSTATUS_SPP_U);
      }
      privMode := PRIV_S;
      status := SetSpie(status, GetSie(status));
      sstatus := SetSie(status, 0);
    }

    /** The hart's part of trap entry. */
    method TrapHart(cause: Word, tval: Word)
      requires Valid()
      modifies `sepc, `scause, `stval, `sstatus, `privMode, regs
      ensures Valid()
      ensures HartView() == Trap(old(HartView()), cause, tval)
    {
      hide StatusFields, VectorFields, TimerField, SpaceFields, TrappedStatus, StvecMode, ValidStatus, ValidVector;
      hide ValidSatp, ValidTimerBits, StubOf;
      ghost var before := Csr();
      TrapFile(HartView(), before, cause, tval);
      TrapTargets(stvec, cause);
      sepc := regs[0];
      scause := cause;
      stval := tval;
      StackPrivilege();
      regs[0] := TrapTarget(cause);
      assert Csr() == TrappedFile(before, old(regs[0]), cause, tval, old(privMode) == PRIV_S);
      VisibleAfterPc(old(regs[..]), regs[0]);
      assert regs[..] == old(regs[..])[0 := regs[0]];
    }

    method EnterTrap(cause: Word, tval: Word)
      requires Valid()
      modifies `sepc, `scause, `stval, `sstatus, `privMode, `shouldClearVm, `log, regs
      ensures Valid()
      ensures View() == TakeTrap(old(View()), cause, tval)
    {
      hide Fields, Visible, Trap, StubOf, ValidFile;
      TrapHart(cause, tval);
      shouldClearVm := true;
      log := log + [TrapRecord(old(HartView().pc), old(HartView().mode), cause)];
    }

    // ---- riscv-priv.c: privileged instructions ----

    method Sret()
      requires Valid()
      modifies `sstatus, `privMode, `shouldClearVm, regs
      ensures Valid()
      ensures HartView() == ReturnFromTrap(old(HartView()))
      ensures shouldClearVm == (old(shouldClearVm) || old(HartView()).csrs.status.spp == User)
    {
      var spp := GetSpp(sstatus);
      SretStatus(sstatus);
      var status := SetSie(sstatus, GetSpie(sstatus));
      status := SetSpie(status, 1);
      sstatus := SetSpp(status, 0);
      if spp == SSTATUS_SPP_U {
        privMode := PRIV_U;
        shouldClearVm := true;
      } else {
        privMode := PRIV_S;
      }
      regs[0] := sepc;
      VisibleAfterPc(old(regs[..]), regs[0]);
      assert regs[..] == old(regs[..])[0 := regs[0]];
    }

    /** pc moves on by the length of the instruction. */
    method Skip(length: int)
      requires regs.Length == 32
      modifies regs
      ensures regs[..] == old(regs[..])[0 := Wrap(old(regs[0]) + length)]
      ensures Visible(regs[..]) == Visible(old(regs[..]))
    {
      regs[0] := Wrap(regs[0] + length);
      VisibleAfterPc(old(regs[..]), regs[0]);
      assert regs[..] == old(regs[..])[0 := regs[0]];
    }

    method PutReg(rd: RegNumber, v: Word)
      requires regs.Length == 32
      modifies regs
      ensures rd == 0 ==> regs[..] == old(regs[..])
      ensures rd != 0 ==> regs[..] == old(regs[..])[rd := v]
      ensures Visible(regs[..]) == SetReg(Visible(old(regs[..])), rd, v)
    {
      if rd != 0 {
        regs[rd] := v;
        VisibleAfterReg(old(regs[..]), rd, v);
        assert regs[..] == old(regs[..])[rd := v];
      }
    }

    method CsrInstruction(code: Code) returns (halted: bool)
      requires Valid() && IsCsrAccess(code)
      modifies `sscratch, `stvec, `sepc, `sstatus, `sie, `sip, `scause, `stval, `satp, `shouldClearVm, regs
      ensures Valid()
      ensures halted <==> CsrAt(InsCsr(code)).None?
      ensures !halted ==>
        HartView() == AccessCsr(old(HartView()), OpOf(code), CsrAt(InsCsr(code)).value, InsRd(code), OperandOf(code))
      ensures !halted ==>
        shouldClearVm == (old(shouldClearVm) || (
          CsrAt(InsCsr(code)) == Some(Satp) && Writes(OpOf(code), OperandOf(code)) && SatpModeSupported(
            Combine(OpOf(code), Isa.ReadCsr(old(Fields(Csr())), Satp),
                    OperandValue(old(Visible(regs[..])), OperandOf(code))))))
    {
      hide Isa.ReadCsr, Isa.WriteCsr, SatpModeSupported, Fields, Or, AndNot, ValidFile, InsCsr, InsRd, InsRs1;
      hide InsFunct3;
      var csr, rs1, rd := InsCsr(code), InsRs1(code), InsRd(code);
      var op := CsrOpField(InsFunct3(code));
      var useUimm := CsrUsesUimm(InsFunct3(code));
      var writeValue: Word := if useUimm then rs1 else if rs1 == 0 then 0 else regs[rs1];
      var willWrite := if useUimm then writeValue != 0 else rs1 != 0;
      assert writeValue == OperandValue(Visible(regs[..]), OperandOf(code));
      var orig: Word;
      if op == CSR_OP_RW {
        if rd != 0 {
          halted, orig := ReadCsr(csr);
          if halted { return; }
          PutReg(rd, orig);
        }
        halted := WriteCsr(csr, writeValue);
      } else if op == CSR_OP_RS {
        halted, orig := ReadCsr(csr);
        if halted { return; }
        if willWrite { halted := WriteCsr(csr, Or(orig, writeValue)); }
        PutReg(rd, orig);
      } else {
        halted, orig := ReadCsr(csr);
        if halted { return; }
        if willWrite { halted := WriteCsr(csr, AndNot(orig, writeValue)); }
        PutReg(rd, orig);
      }
      Skip(4);
    }

    /** Decode and execute; the hart's part of it. */
    method ExecutePrivInstr(code: Code) returns (halted: bool)
      requires Valid()
      modifies `sscratch, `stvec, `sepc, `sstatus, `sie, `sip, `scause, `stval, `satp, `shouldClearVm, `privMode, regs
      ensures Valid()
      ensures halted <==> Decode(code).None? || Execute(old(HartView()), Decode(code).value).None?
      ensures !halted ==> HartView() == Execute(old(HartView()), Decode(code).value).value
      ensures !halted ==>
        shouldClearVm == (old(shouldClearVm) || DropsTranslations(old(HartView()), Decode(code).value))
    {
      DecodesByFields(code);
      hide Isa.ReadCsr, Isa.WriteCsr, SatpModeSupported, Fields, ValidFile, Decode;
      hide IsSfenceVma, IsWfi, IsSret, IsCsrAccess, OpOf, OperandOf, InsCsr, InsRd;
      halted := false;
      if IsSfenceVma(code) {
        shouldClearVm := true;
        Skip(4);
      } else if IsWfi(code) {
        Skip(4);
      } else if IsSret(code) {
        Sret();
      } else if IsCsrAccess(code) {
        halted := CsrInstruction(code);
      } else {
        halted := true;
      }
    }

    method HandlePrivInstr(code: Code) returns (halted: bool)
      requires Valid()
      modifies `sscratch, `stvec, `sepc, `sstatus, `sie, `sip, `scause, `stval, `satp, `shouldClearVm, `privMode, regs
      ensures Valid()
      ensures halted <==> OnPrivileged(old(View()), code).Halt?
      ensures !halted ==> View() == OnPrivileged(old(View()), code).m
    {
      hide Fields, Visible, Decode, Execute, DropsTranslations, StubOf;
      halted := ExecutePrivInstr(code);
    }

    // ---- riscv-priv.c: the page-table walker ----

    /** The walker's loop over the three levels; a table outside RAM or a superpage ends it. */
    method WalkTables(va: Word, root: int) returns (w: Walk)
      requires Valid() && root % PAGE == 0
      ensures w == WalkFrom(false, ram[..], root, va, 2)
      ensures Walker.FollowsPath(w, ram[..], root, va)
    {
      Walker.WalkFollowsPath(ram[..], root, va);
      hide Walker.FollowsPath;
      VpnsByLevel(va);
      hide WalkFrom, Sv39.Valid, Readable, Writable, Executable, Load64, PtePpn, Vpn, ValidFile;
      var vpn := [GetVaPpn0(va), GetVaPpn1(va), GetVaPpn2(va)];
      var ptAddr := root;
      for level := 0 to 3
        invariant ptAddr % PAGE == 0
        invariant level < 3
        invariant WalkFrom(false, ram[..], root, va, 2) == WalkFrom(false, ram[..], ptAddr, va, 2 - level)
      {
        WalkStep(ram[..], ptAddr, va, 2 - level);
        if !InRam(ptAddr) {
          return OutsideRam;
        }
        assert vpn[level] == Vpn(va, 2 - level);
        TableInRam(ptAddr, vpn[level]);
        var entry := Load64(ram[..], ptAddr - RAM_START + vpn[level] * 8);
        if !Sv39.Valid(entry) {
          return Invalid;
        }
        if !Readable(entry) && Writable(entry) {
          return Invalid;
        }
        if level < 2 {
          if Readable(entry) || Writable(entry) || Executable(entry) {
            return Leaf(2 - level, entry);
          }
          PageMultiple(PtePpn(entry));
          ptAddr := PtePpn(entry) * PAGE;
        } else {
          return if Readable(entry) || Executable(entry) then Leaf(0, entry) else NoLeaf(entry);
        }
      }
    }

    /** lookup_pa_in_ram; only a last-level entry is a translation, and a superpage halts. */
    method LookupPaInRam(va: Word) returns (halted: bool, found: bool, pa: int, pte: int)
      requires Valid()
      ensures halted <==> LookUp(ram[..], SpaceFields(satp), va).Stuck?
      ensures !halted ==> (found <==> !LookUp(ram[..], SpaceFields(satp), va).Unmapped?)
      ensures !halted && found ==>
        match LookUp(ram[..], SpaceFields(satp), va)
        case Untranslated => pa == va && pte == 0
        case Found(pa1, pte1) => pa == pa1 && pte == pte1 && pte != 0
        case _ => false
    {
      SatpFields(satp);
      SignCheck(va);
      PageMultiple(GetSatpPpn(satp));
      LeavesAreNotZero(ram[..], GetSatpPpn(satp) * PAGE, va, 2);
      hide SpaceFields, GetSatpMode, GetSatpPpn, Signed, ShiftedBack, SignExtended39, WalkFrom, PtePpn;
      if GetSatpMode(satp) == SATP_MODE_BARE {
        return false, true, va, 0;
      }
      if Signed(va) != ShiftedBack(va) {
        return false, false, 0, 0;
      }
      var w := WalkTables(va, GetSatpPpn(satp) * PAGE);
      match w
      case OutsideRam => return true, false, 0, 0;
      case Invalid => return false, false, 0, 0;
      case Leaf(level, pte') =>
        if level > 0 { return true, false, 0, 0; }
        return false, true, PtePpn(pte') * PAGE + GetVaOff(va), pte';
      case NoLeaf(pte') =>
        return false, true, PtePpn(pte') * PAGE + GetVaOff(va), pte';
    }

    // ---- the system calls the handlers make ----

    /** mmap of one RAM file page with MAP_FIXED_NOREPLACE. */
    method MmapRamPage(addr: int, r: bool, w: bool, x: bool, offset: int) returns (failed: bool)
      requires addr % PAGE == 0
      requires offset % PAGE == 0 && 0 <= offset <= RAM_SIZE - PAGE
      modifies `vm
      ensures ValidPage(RamPage(offset / PAGE, r, w, x))
      ensures failed <==> MapPage(old(vm), addr, RamPage(offset / PAGE, r, w, x)).None?
      ensures vm == if failed then old(vm) else MapPage(old(vm), addr, RamPage(offset / PAGE, r, w, x)).value
    {
      OffsetFrame(offset);
      var mapped := MapPage(vm, addr, RamPage(offset / PAGE, r, w, x));
      failed := mapped.None?;
      if !failed { vm := mapped.value; }
    }

    /** pread: the kernel copies file bytes to user memory one after the other. */
    method PreadBlock(buf: int, offset: int)
      requires ram.Length == RAM_SIZE
      modifies ram
      ensures ram[..] == Pread(old(ram[..]), vm, buf, file, offset)
    {
      var n := Reachable(vm, buf, ForWrite, Available(file, offset));
      ghost var data := if n == 0 then [] else file[offset..offset + n];
      for i := 0 to n
        invariant ram[..] == CopyOut(old(ram[..]), vm, buf, data[..i])
      {
        CopyOutStep(old(ram[..]), vm, buf, data, i);
        assert data[i] == file[offset + i];
        ram[BufferByte(vm, buf, i, ForWrite).value] := file[offset + i];
      }
      assert data[..n] == data;
    }

    /** timer_settime with a zero interval. */
    method TimerSettime(seconds: int, nanoseconds: int)
      modifies `timer
      ensures timer == if seconds == 0 && nanoseconds == 0 then Disarmed else Armed(seconds, nanoseconds)
    {
      timer := if seconds == 0 && nanoseconds == 0 then Disarmed else Armed(seconds, nanoseconds);
    }

    // ---- riscv-priv.c: page faults ----

    /** The register a store at pc takes its data from, or -1. */
    static method DecodeSd(code: Code) returns (rs2: int)
      ensures rs2 == if StoreSource(code).Some? then StoreSource(code).value else -1
    {
      if code % 2 == 1 {
        if InsOpcode(code) == OPCODE_STORE {
          if InsFunct3(code) == 3 { return InsRs2(code); } else { return -1; }
        }
        return -1;  // the source returns no value here
      } else {
        var op, funct3 := code % 4, (code / 0x2000) % 8;
        if op == 0 && funct3 == 7 {
          return (code / 4) % 8 + 8;
        } else if op == 2 && funct3 == 3 {
          return (code / 4) % 32;
        } else {
          return -1;
        }
      }
    }

    method GetStoreData(code: Code) returns (ok: bool, data: Word)
      requires regs.Length == 32
      ensures ok <==> StoreSource(code).Some?
      ensures ok ==> data == StoreData(HartView(), StoreSource(code).value)
    {
      var rs2 := DecodeSd(code);
      if rs2 >= 0 {
        return true, regs[rs2];
      } else {
        return false, 0;
      }
    }

    method BlockCommand(command: Word) returns (halted: bool)
      requires ram.Length == RAM_SIZE
      modifies `file, ram
      ensures halted <==> command != 1 && command != 2
      ensures !halted ==>
        var offset := BlockOffset(blockId);
        && ram[..] == (if command == 1 then Pread(old(ram[..]), vm, blockBuf, old(file), offset) else old(ram[..]))
        && file == (if command == 2 then Pwrite(old(ram[..]), vm, blockBuf, old(file), offset) else old(file))
    {
      halted := false;
      if command == 1 {
        PreadBlock(blockBuf, (512 * blockId) % TWO_64);
      } else if command == 2 {
        file := Pwrite(ram[..], vm, blockBuf, file, (512 * blockId) % TWO_64);
      } else {
        halted := true;
      }
    }

    method DeviceRegister(pa: int, data: Word) returns (halted: bool)
      requires Valid()
      modifies `file, `blockId, `blockBuf, ram
      ensures halted <==> DeviceStore(old(View()), pa, data).Halt?
      ensures !halted ==> View() == DeviceStore(old(View()), pa, data).m
    {
      hide Fields, ValidFile, StubOf, Pread, Pwrite, BlockOffset, Visible;
      halted := false;
      if pa == BLOCK_COMMAND {
        halted := BlockCommand(data);
      } else if pa == BLOCK_ID {
        blockId := data;
      } else if pa == BLOCK_BUF {
        blockBuf := data;
      } else {
        halted := true;
      }
      assert regs[..] == old(regs[..]);
    }

    method DeviceFault(access: Access, pa: int, code: Code) returns (halted: bool)
      requires Valid()
      modifies `file, `blockId, `blockBuf, ram, regs
      ensures halted <==> OnDeviceFault(old(View()), access, pa, code).Halt?
      ensures !halted ==> View() == OnDeviceFault(old(View()), access, pa, code).m
    {
      hide Fields, ValidFile, StubOf, StoreSource, DeviceStore, Visible;
      if access != Store { return true; }
      var ok, data := GetStoreData(code);
      if !ok { return true; }
      halted := DeviceRegister(pa, data);
      if !halted { Skip(if code % 2 == 1 then 4 else 2); }
    }

    /** The mmap of a permitted access: the frame of the leaf, at the page of the address. */
    method InstallPage(va: Word, pa: int, pte: int) returns (failed: bool)
      requires Valid() && InRam(pa) && pa == PtePpn(pte) * PAGE + va % PAGE
      modifies `vm
      ensures failed <==> FillPage(old(View()), va, PageFor(pa, pte)).Halt?
      ensures !failed ==> View() == FillPage(old(View()), va, PageFor(pa, pte)).m
    {
      FrameOffset(pa, PtePpn(pte), va);
      var offset := PtePpn(pte) * PAGE - RAM_START;
      assert PageFor(pa, pte) == RamPage(offset / PAGE, Readable(pte), Writable(pte), Executable(pte));
      hide Fields, StubOf, Readable, Writable, Executable, PtePpn, Visible, MapPage, PageFor;
      failed := MmapRamPage(va - va % PAGE, Readable(pte), Writable(pte), Executable(pte), offset);
    }

    method RamFault(access: Access, va: Word, pa: int, pte: int) returns (halted: bool)
      requires Valid() && InRam(pa) && pa == PtePpn(pte) * PAGE + va % PAGE
      modifies `sepc, `scause, `stval, `sstatus, `privMode, `shouldClearVm, `log, `vm, regs
      ensures Valid()
      ensures halted <==> OnRamFault(old(View()), access, va, pa, pte).Halt?
      ensures !halted ==> View() == OnRamFault(old(View()), access, va, pa, pte).m
    {
      hide Fields, StubOf, Permits, PtePpn, FillPage, PageFor, Visible, TakeTrap, FaultCause;
      halted := false;
      if !Permits(pte, access) {
        if privMode == PRIV_S { return true; }
        EnterTrap(FaultCause(access), va);
      } else {
        halted := InstallPage(va, pa, pte);
      }
    }

    method HandlePageFault(access: Access, va: Word, code: Code) returns (halted: bool)
      requires Valid()
      modifies this, regs, ram
      ensures Valid()
      ensures halted <==> OnFault(old(View()), access, va, code).Halt?
      ensures !halted ==> View() == OnFault(old(View()), access, va, code).m
    {
      hide StatusFields, VectorFields, TimerField, SpaceFields, ValidFile, StubOf, OnRamFault, OnDeviceFault, PtePpn;
      hide WalkFrom, Visible;
      var found: bool, pa: int, pte: int;
      halted, found, pa, pte := LookupPaInRam(va);
      if halted { return; }
      if found {
        if pte == 0 {
          halted := true;
        } else if InRam(pa) {
          halted := RamFault(access, va, pa, pte);
        } else {
          halted := DeviceFault(access, pa, code);
        }
      } else {
        EnterTrap(FaultCause(access), va);
      }
    }

    // ---- handle-sbi.c ----

    method HandleLegacySbiCall(which: Word, arg0: Word, time: Word, console: Option<Word>)
      returns (halted: bool, ret: Word)
      requires Valid()
      modifies `timer, `sip
      ensures Valid()
      ensures halted <==> which == 8 || (which == 2 && console.None?)
      ensures !halted && which == 0 ==>
        && timer == TimerFor(TimerDelay(arg0, time))
        && Fields(Csr()) == old(Fields(Csr())).(stip := arg0 <= time)
      ensures which != 0 ==> timer == old(timer) && sip == old(sip)
      ensures !halted ==>
        ret == if which == 2 then console.value else if which == 0 || which == 1 then 0 else NOT_SUPPORTED
    {
      if which == 1 {
        return false, 0;
      } else if which == 2 {
        if console.None? { return true, 0; } else { return false, console.value; }
      } else if which == 8 {
        return true, 0;
      } else if which == 0 {
        var deltaNs := (((arg0 - time) % TWO_64) * 1000) % TWO_64;
        TimerSettime(deltaNs / BILLION, deltaNs % BILLION);
        SplitsDelay(deltaNs);
        StoresPending(sip, arg0 <= time);
        sip := SetSti(sip, if arg0 <= time then 1 else 0);
        return false, 0;
      } else {
        return false, NOT_SUPPORTED;
      }
    }

    // ---- urvirt-stub.c: the signal handler ----

    method SupervisorEcall(which: Word, time: Word, console: Option<Word>) returns (halted: bool)
      requires Valid()
      modifies `timer, `sip, regs
      ensures Valid()
      ensures halted <==> SbiCall(old(View()), which, time, console).Halt?
      ensures !halted ==> View() == SbiCall(old(View()), which, time, console).m
    {
      hide StatusFields, VectorFields, SpaceFields, TimerField, ValidFile, StubOf, SetReg, TimerFor, TimerDelay;
      var ret;
      assert regs[10] == Visible(regs[..])[A0];
      halted, ret := HandleLegacySbiCall(which, regs[10], time, console);
      if halted { return; }
      PutReg(10, ret);
      if which != 0 { assert Csr() == old(Csr()); }
    }

    method OnSigsys(which: Word, time: Word, console: Option<Word>) returns (halted: bool)
      requires Valid()
      modifies `timer, `sepc, `scause, `stval, `sstatus, `privMode, `shouldClearVm, `log, `sip, regs
      ensures Valid()
      ensures halted <==> OnEcall(old(View()), which, time, console).Halt?
      ensures !halted ==> View() == OnEcall(old(View()), which, time, console).m
      ensures Effects.EcallActs(old(View()), if halted then Halt else Next(View()), which, time, console)
    {
      Effects.EcallEffect(View(), which, time, console);
      hide Effects.EcallActs;
      hide Fields, ValidFile, StubOf, SetReg, SbiCall, TakeTrap, Visible;
      PutReg(17, which);
      assert View() == old(View()).(hart := old(View()).hart.(x := SetReg(old(View()).hart.x, A7, which)));
      if privMode == PRIV_S {
        halted := SupervisorEcall(which, time, console);
      } else {
        ghost var m1 := View();
        Skip(-4);
        assert View() == m1.(hart := m1.hart.(pc := Wrap(m1.hart.pc - 4)));
        EnterTrap(SCAUSE_UECALL, 0);
        halted := false;
      }
    }

    method OnSigill(code: Code) returns (halted: bool)
      requires Valid()
      modifies `sscratch, `stvec, `sepc, `sstatus, `sie, `sip, `scause, `stval, `satp, `shouldClearVm, `privMode
      modifies `log, regs
      ensures Valid()
      ensures halted <==> OnIllegal(old(View()), code).Halt?
      ensures !halted ==> View() == OnIllegal(old(View()), code).m
    {
      hide Fields, StubOf, Visible, OnPrivileged, TakeTrap;
      halted := false;
      if privMode == PRIV_S {
        // a 32-bit instruction ends in 11, and not in 11111
        if code % 4 == 3 && code % 32 != 31 {
          halted := HandlePrivInstr(code);
          return;
        } else {
          OtherLengthsDoNotDecode(View(), code);
          return true;
        }
      } else {
        EnterTrap(SCAUSE_ILLEGAL, 0);
      }
    }

    /** The kind of access behind a SIGSEGV. */
    method ClassifyFault(va: Word, code: Code) returns (access: Access)
      requires regs.Length == 32
      ensures access == Classify(va, HartView().pc, code)
      ensures va == HartView().pc ==> access == Fetch
      ensures AccessKinds.MemoryAccess(code).Some? ==>
        (access == AccessKinds.MemoryAccess(code).value <==> va != HartView().pc && !AccessKinds.Misread(code))
    {
      AccessKinds.ClassifiesAccesses(va, HartView().pc, code);
      hide AccessKinds.MemoryAccess, AccessKinds.Misread;
      LowHalf(code);
      hide RvcLooksLikeLoad, RvcLooksLikeStore, LooksLikeRvcLoad, LooksLikeRvcStore, Fields, Visible;
      if va == regs[0] {
        access := Fetch;
      } else if code % 4 != 3 {
        if RvcLooksLikeLoad(code % 0x1_0000) {
          access := Load;
        } else if RvcLooksLikeStore(code % 0x1_0000) {
          access := Store;
        } else {
          access := Fetch;
        }
      } else {
        var opcode := code % 0x80;
        if opcode == OPCODE_LOAD {
          access := Load;
        } else if opcode == OPCODE_STORE {
          access := Store;
        } else if opcode == OPCODE_AMO {
          access := Store;
        } else {
          access := Fetch;
        }
      }
    }

    method DispatchSignal(s: Signal) returns (halted: bool)
      requires Valid()
      modifies this, regs, ram
      ensures Valid()
      ensures halted <==> Dispatch(old(View()), s).Halt?
      ensures !halted ==> View() == Dispatch(old(View()), s).m
    {
      hide StatusFields, VectorFields, SpaceFields, TimerField, StubOf, Visible, OnEcall, OnIllegal, OnFault, Classify;
      match s
      case Ecall(number, time, console) =>
        halted := OnSigsys(number, time, console);
      case IllegalInstruction(code) =>
        halted := OnSigill(code);
      case Alarm(expired) =>
        StoresPending(sip, true);
        sip := SetSti(sip, 1);
        if expired { timer := Disarmed; }
        halted := false;
      case Fault(va, code) =>
        var access := ClassifyFault(va, code);
        halted := HandlePageFault(access, va, code);
      case Other =>
        halted := true;
    }

    /** The whole handler: dispatch, interrupt check, deferred flush. */
    method Handler(s: Signal) returns (halted: bool)
      requires Valid()
      modifies this, regs, ram
      ensures Valid()
      ensures halted <==> Handle(old(View()), s).Halt?
      ensures !halted ==> View() == Handle(old(View()), s).m
    {
      halted := DispatchSignal(s);
      if halted { return; }
      DeliverTimer();
      FlushIfNeeded();
    }

    method DeliverTimer()
      requires Valid()
      modifies `sepc, `scause, `stval, `sstatus, `privMode, `shouldClearVm, `log, regs
      ensures Valid()
      ensures View() == DeliverInterrupt(old(View()))
      ensures old(var h := HartView(); h.csrs.stip && h.csrs.stie && (h.csrs.status.sie || h.mode == User)) ==>
        Effects.TimerEntered(old(View()), View())
      ensures old(var h := HartView(); !(h.csrs.stip && h.csrs.stie && (h.csrs.status.sie || h.mode == User))) ==>
        View() == old(View())
    {
      Effects.TimerTraps(View());
      hide Effects.TimerEntered;
      TimerBits(sip, sie, sstatus);
      hide StatusFields, VectorFields, SpaceFields, TimerField, StubOf, Visible, TakeTrap, GetSti, GetSie;
      if GetSti(sip) == 1 && GetSti(sie) == 1 && (GetSie(sstatus) == 1 || privMode < PRIV_S) {
        EnterTrap(SCAUSE_TIMER, 0);
      }
    }

    method FlushIfNeeded()
      requires Valid()
      modifies `vm, `shouldClearVm
      ensures Valid()
      ensures View() == Flush(old(View()))
    {
      hide Fields, Visible, Unmap;
      if shouldClearVm {
        shouldClearVm := false;
        var safeBegin := stubStart;
        var safeEnd := (stubStart + stubSize) % TWO_64;
        vm := Unmap(vm, 0, safeBegin);
        vm := Unmap(vm, safeEnd, (USER_END - safeEnd) % TWO_64);
      }
    }
  }

  /** entrypoint: the mappings the kernel will start with. */
  method Enter(stub: int, size: int, ram: array<Byte>, process: HostVm, file: File) returns (e: Emulator)
    requires ram.Length == RAM_SIZE
    requires ValidStub(StubRange(stub, stub + size)) && ValidStub(StubRange(stub, stub + size + SIGSTACK_SIZE))
    requires stub + size + SIGSTACK_SIZE <= RAM_START || RAM_START + RAM_SIZE <= stub
    requires forall p :: p in process ==> process[p].StubPage?
    requires forall p :: 0 <= p < USER_END / PAGE && InStub(StubRange(stub, stub + size), p) ==> p in process
    ensures fresh(e) && e.ram == ram && e.file == file
    ensures fresh(e.regs) && e.regs.Length == 32 && e.regs[0] == KERNEL_START
    ensures e.stval == 0 && e.log == [] && !e.shouldClearVm && e.timer == Disarmed
    ensures StubOf(e.stubStart, e.stubSize) == StubRange(stub, stub + size + SIGSTACK_SIZE)
    ensures BootMappings(e.vm, StubOf(e.stubStart, e.stubSize))
  {
    hide *;
    BootMaps(process, stub, size);
    StackFollowsStub(StubRange(stub, stub + size), StubRange(stub, stub + size + SIGSTACK_SIZE));
    e := new Emulator(stub, size, ram, process, file);
  }

  /**
   * entrypoint and entrypoint_1: from a process that holds just the stub's image, the emulator reaches
   * a valid state whose machine has just booted; every run starts there.
   */
  method Boot(stub: int, size: int, ram: array<Byte>, process: HostVm, file: File) returns (e: Emulator)
    requires ram.Length == RAM_SIZE
    requires ValidStub(StubRange(stub, stub + size)) && ValidStub(StubRange(stub, stub + size + SIGSTACK_SIZE))
    requires stub + size + SIGSTACK_SIZE <= RAM_START || RAM_START + RAM_SIZE <= stub
    requires forall p :: p in process ==> process[p].StubPage?
    requires forall p :: 0 <= p < USER_END / PAGE && InStub(StubRange(stub, stub + size), p) ==> p in process
    ensures fresh(e) && e.ram == ram && e.file == file
    ensures e.Valid() && Booted(e.View()) && e.View().stub == StubRange(stub, stub + size + SIGSTACK_SIZE)
  {
    hide EntryMappings, StubOf, BootMappings, InStub, ValidStub, IsReset, Booted, ValidFile, Fields, ResetCsrs, Visible;
    e := Enter(stub, size, ram, process, file);
    e.InitializePriv();
    e.FreshIsValid();
    e.FreshIsBooted();
  }
}
