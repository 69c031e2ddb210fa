/**
 * The CSRs as the emulator stores them, 64-bit words, against the fields of module Isa: which words
 * can occur, what they stand for, and what each of the emulator's bit operations does to the fields.
 */
module CsrWords {
  import opened Words
  import opened Bits
  import opened Isa

  /** The CSR words of priv_state. */
  datatype CsrFile = CsrFile(
    sstatus: Word, sscratch: Word, stvec: Word, sepc: Word, scause: Word, stval: Word,
    sip: Word, sie: Word, satp: Word)

  // ---- words that can occur ----

  predicate ValidStatus(v: Word) { v - SstatusWritable(v) == STATUS_FIXED }

  predicate ValidVector(v: Word) { StvecMode(v) == STVEC_DIRECT || StvecMode(v) == STVEC_VECTORED }

  predicate ValidTimerBits(v: Word) { v - SixWritable(v) == 0 }

  predicate SatpModeAccepted(v: Word) {
    GetSatpMode(v) == SATP_MODE_SV39 || GetSatpMode(v) == SATP_MODE_BARE
  }

  predicate ValidSatp(v: Word) { SatpModeAccepted(v) && GetSatpAsid(v) == 0 }

  predicate ValidFile(f: CsrFile) {
    && ValidStatus(f.sstatus)
    && ValidVector(f.stvec)
    && ValidTimerBits(f.sip)
    && ValidTimerBits(f.sie)
    && ValidSatp(f.satp)
  }

  function Fields(f: CsrFile): Csrs {
    Csrs(StatusFields(f.sstatus), VectorFields(f.stvec), f.sscratch, f.sepc, f.scause, f.stval,
         TimerField(f.sip), TimerField(f.sie), SpaceFields(f.satp))
  }

  function WordAt(f: CsrFile, c: Csr): Word {
    match c
    case Sstatus => f.sstatus
    case Sie => f.sie
    case Stvec => f.stvec
    case Sscratch => f.sscratch
    case Sepc => f.sepc
    case Scause => f.scause
    case Stval => f.stval
    case Sip => f.sip
    case Satp => f.satp
  }

  // ---- a valid word is the image of its fields ----

  lemma StatusImageOfFields(v: Word)
    requires ValidStatus(v)
    ensures StatusImage(StatusFields(v)) == v
  {
  }

  lemma VectorImageOfFields(v: Word)
    requires ValidVector(v)
    ensures VectorImage(VectorFields(v)) == v
  {
  }

  lemma TimerImageOfField(v: Word)
    requires ValidTimerBits(v)
    ensures TimerImage(TimerField(v)) == v
  {
  }

  lemma SpaceImageOfFields(v: Word)
    requires ValidSatp(v)
    ensures SpaceImage(SpaceFields(v)) == v
  {
  }

  /** Reading a word and reading the fields give the same 64 bits for every CSR. */
  lemma WordIsImageOfFields(f: CsrFile, c: Csr)
    requires ValidFile(f)
    ensures WordAt(f, c) == ReadCsr(Fields(f), c)
  {
    match c
    case Sstatus => StatusImageOfFields(f.sstatus);
    case Sie => TimerImageOfField(f.sie);
    case Stvec => VectorImageOfFields(f.stvec);
    case Sip => TimerImageOfField(f.sip);
    case Satp => SpaceImageOfFields(f.satp);
    case _ =>
  }

  // ---- the emulator's writes ----

  function SanitizeStvec(v: Word): Word {
    if StvecMode(v) == STVEC_DIRECT || StvecMode(v) == STVEC_VECTORED then v else v - StvecMode(v)
  }

  /** The writable bits of a value with the other bits of the current word. */
  function MaskedStatus(value: Word, current: Word): int {
    SstatusWritable(value) + (current - SstatusWritable(current))
  }

  function MaskedSix(value: Word, current: Word): int {
    SixWritable(value) + (current - SixWritable(current))
  }

  lemma StoresStvec(v: Word)
    ensures ValidVector(SanitizeStvec(v))
    ensures VectorFields(SanitizeStvec(v)) == VectorFields(v)
  {
  }

  /** An sstatus word with the given writable bits. */
  function Pack(mxr: int, sum: int, spp: int, spie: int, sie: int): int {
    mxr * W_MXR + sum * W_SUM + spp * W_SPP + spie * W_SPIE + sie * W_SIE + STATUS_FIXED
  }

  predicate IsBit(b: int) { b == 0 || b == 1 }

  lemma PackedHigh(mxr: int, sum: int, spp: int, spie: int, sie: int)
    requires IsBit(mxr) && IsBit(sum) && IsBit(spp) && IsBit(spie) && IsBit(sie)
    ensures var v := Pack(mxr, sum, spp, spie, sie); GetMxr(v) == mxr && GetSum(v) == sum && 0 <= v < TWO_64
  {
  }

  lemma PackedLow(mxr: int, sum: int, spp: int, spie: int, sie: int)
    requires IsBit(mxr) && IsBit(sum) && IsBit(spp) && IsBit(spie) && IsBit(sie)
    ensures var v := Pack(mxr, sum, spp, spie, sie); GetSpp(v) == spp && GetSpie(v) == spie && GetSie(v) == sie
  {
  }

  lemma PackedBits(mxr: int, sum: int, spp: int, spie: int, sie: int)
    requires IsBit(mxr) && IsBit(sum) && IsBit(spp) && IsBit(spie) && IsBit(sie)
    ensures var v := Pack(mxr, sum, spp, spie, sie);
      && GetMxr(v) == mxr && GetSum(v) == sum && GetSpp(v) == spp && GetSpie(v) == spie && GetSie(v) == sie
      && 0 <= v < TWO_64
  {
    PackedHigh(mxr, sum, spp, spie, sie);
    PackedLow(mxr, sum, spp, spie, sie);
  }

  lemma SetsPacked(mxr: int, sum: int, spp: int, spie: int, sie: int, f: int)
    requires IsBit(mxr) && IsBit(sum) && IsBit(spp) && IsBit(spie) && IsBit(sie)
    ensures var v := Pack(mxr, sum, spp, spie, sie);
      && SetSpp(v, f) == Pack(mxr, sum, f, spie, sie)
      && SetSpie(v, f) == Pack(mxr, sum, spp, f, sie)
      && SetSie(v, f) == Pack(mxr, sum, spp, spie, f)
      && GetSie(v) == sie && GetSpie(v) == spie
  {
    PackedLow(mxr, sum, spp, spie, sie);
  }

  lemma PackedFields(mxr: int, sum: int, spp: int, spie: int, sie: int)
    requires IsBit(mxr) && IsBit(sum) && IsBit(spp) && IsBit(spie) && IsBit(sie)
    ensures var v := Pack(mxr, sum, spp, spie, sie);
      && 0 <= v < TWO_64
      && ValidStatus(v)
      && StatusFields(v) == Status(sie == 1, spie == 1, if spp == 1 then Supervisor else User, sum == 1, mxr == 1)
  {
    PackedBits(mxr, sum, spp, spie, sie);
  }

  lemma StoresStatus(v: Word, current: Word)
    requires ValidStatus(current)
    ensures 0 <= MaskedStatus(v, current) < TWO_64
    ensures ValidStatus(MaskedStatus(v, current))
    ensures StatusFields(MaskedStatus(v, current)) == StatusFields(v)
  {
    PackedBits(GetMxr(v), GetSum(v), GetSpp(v), GetSpie(v), GetSie(v));
  }

  lemma StoresTimerBits(v: Word, current: Word)
    requires ValidTimerBits(current)
    ensures 0 <= MaskedSix(v, current) < TWO_64
    ensures ValidTimerBits(MaskedSix(v, current))
    ensures TimerField(MaskedSix(v, current)) == TimerField(v)
  {
  }

  /** satp splits into its three fields. */
  lemma SatpParts(v: Word)
    ensures v == GetSatpMode(v) * W_MODE + GetSatpAsid(v) * W_ASID + GetSatpPpn(v)
    ensures v / W_MODE == GetSatpMode(v)
  {
  }

  lemma SatpOf(mode: int, ppn: int)
    requires 0 <= mode < 16 && 0 <= ppn < W_ASID
    ensures var v := mode * W_MODE + ppn;
      0 <= v < TWO_64 && GetSatpMode(v) == mode && v / W_MODE == mode && GetSatpAsid(v) == 0 && GetSatpPpn(v) == ppn
  {
  }

  lemma StoresSatp(v: Word)
    ensures SatpModeAccepted(v) <==> SatpModeSupported(v)
    ensures 0 <= SetSatpAsid(v, 0) < TWO_64
    ensures SatpModeAccepted(v) ==> ValidSatp(SetSatpAsid(v, 0)) && SpaceFields(SetSatpAsid(v, 0)) == SpaceFields(v)
  {
    SatpParts(v);
    SatpOf(GetSatpMode(v), GetSatpPpn(v));
    assert SetSatpAsid(v, 0) == GetSatpMode(v) * W_MODE + GetSatpPpn(v);
  }

  // ---- the words after a store ----

  function StoreAt(f: CsrFile, c: Csr, v: Word): CsrFile
    requires ValidFile(f)
  {
    match c
    case Sstatus => StoresStatus(v, f.sstatus); f.(sstatus := MaskedStatus(v, f.sstatus))
    case Sie => StoresTimerBits(v, f.sie); f.(sie := MaskedSix(v, f.sie))
    case Stvec => f.(stvec := SanitizeStvec(v))
    case Sscratch => f.(sscratch := v)
    case Sepc => f.(sepc := v)
    case Scause => f.(scause := v)
    case Stval => f.(stval := v)
    case Sip => StoresTimerBits(v, f.sip); f.(sip := MaskedSix(v, f.sip))
    case Satp => StoresSatp(v); if SatpModeAccepted(v) then f.(satp := SetSatpAsid(v, 0)) else f
  }

  /** Storing a word is writing the CSR: reserved and read-only bits never change. */
  lemma StoreIsWrite(f: CsrFile, c: Csr, v: Word)
    requires ValidFile(f)
    ensures ValidFile(StoreAt(f, c, v))
    ensures Fields(StoreAt(f, c, v)) == WriteCsr(Fields(f), c, v)
  {
    match c
    case Sstatus => StoresStatus(v, f.sstatus);
    case Sie => StoresTimerBits(v, f.sie);
    case Sip => StoresTimerBits(v, f.sip);
    case Stvec => StoresStvec(v);
    case Satp => StoresSatp(v);
    case _ =>
  }

  lemma SatpFields(v: Word)
    requires ValidSatp(v)
    ensures GetSatpMode(v) == SATP_MODE_BARE <==> !SpaceFields(v).sv39
    ensures GetSatpPpn(v) == SpaceFields(v).ppn
  {
    SatpParts(v);
  }

  // ---- trap entry and return ----

  function TrappedStatus(v: int, fromS: bool): int {
    var s := SetSpp(v, if fromS then SSTATUS_SPP_S else SSTATUS_SPP_U);
    SetSie(SetSpie(s, GetSie(s)), 0)
  }

  lemma StatusSplit(v: Word)
    requires ValidStatus(v)
    ensures v == Pack(GetMxr(v), GetSum(v), GetSpp(v), GetSpie(v), GetSie(v))
  {
  }

  lemma TrappedPack(mxr: int, sum: int, spp: int, spie: int, sie: int, fromS: bool)
    requires IsBit(mxr) && IsBit(sum) && IsBit(spp) && IsBit(spie) && IsBit(sie)
    ensures TrappedStatus(Pack(mxr, sum, spp, spie, sie), fromS) == Pack(mxr, sum, if fromS then 1 else 0, sie, 0)
  {
    var from := if fromS then 1 else 0;
    SetsPacked(mxr, sum, spp, spie, sie, from);
    SetsPacked(mxr, sum, from, spie, sie, sie);
    SetsPacked(mxr, sum, from, sie, sie, 0);
  }

  lemma TrapStatus(v: Word, fromS: bool)
    requires ValidStatus(v)
    ensures 0 <= TrappedStatus(v, fromS) < TWO_64 && ValidStatus(TrappedStatus(v, fromS))
    ensures var s := StatusFields(v);
      StatusFields(TrappedStatus(v, fromS))
      == s.(spp := if fromS then Supervisor else User, spie := s.sie, sie := false)
  {
    StatusSplit(v);
    TrappedPack(GetMxr(v), GetSum(v), GetSpp(v), GetSpie(v), GetSie(v), fromS);
    PackedFields(GetMxr(v), GetSum(v), if fromS then 1 else 0, GetSie(v), 0);
  }

  function ReturnedStatus(v: int): int {
    SetSpp(SetSpie(SetSie(v, GetSpie(v)), 1), 0)
  }

  lemma ReturnedPack(mxr: int, sum: int, spp: int, spie: int, sie: int)
    requires IsBit(mxr) && IsBit(sum) && IsBit(spp) && IsBit(spie) && IsBit(sie)
    ensures ReturnedStatus(Pack(mxr, sum, spp, spie, sie)) == Pack(mxr, sum, 0, 1, spie)
  {
    SetsPacked(mxr, sum, spp, spie, sie, spie);
    SetsPacked(mxr, sum, spp, spie, spie, 1);
    SetsPacked(mxr, sum, spp, 1, spie, 0);
  }

  lemma SretStatus(v: Word)
    requires ValidStatus(v)
    ensures 0 <= ReturnedStatus(v) < TWO_64 && ValidStatus(ReturnedStatus(v))
    ensures var s := StatusFields(v);
      StatusFields(ReturnedStatus(v)) == s.(sie := s.spie, spie := true, spp := User)
  {
    StatusSplit(v);
    ReturnedPack(GetMxr(v), GetSum(v), GetSpp(v), GetSpie(v), GetSie(v));
    PackedFields(GetMxr(v), GetSum(v), 0, 1, GetSpie(v));
  }

  /** The words after a trap, and after sret. */
  function TrappedFile(f: CsrFile, pc: Word, cause: Word, tval: Word, fromS: bool): CsrFile
    requires ValidStatus(f.sstatus)
  {
    TrapStatus(f.sstatus, fromS);
    f.(sepc := pc, scause := cause, stval := tval, sstatus := TrappedStatus(f.sstatus, fromS))
  }

  lemma TrapFile(h: Hart, f: CsrFile, cause: Word, tval: Word)
    requires ValidFile(f) && h.csrs == Fields(f)
    ensures var f1 := TrappedFile(f, h.pc, cause, tval, h.mode == Supervisor);
      ValidFile(f1) && Trap(h, cause, tval).csrs == Fields(f1)
  {
    TrapStatus(f.sstatus, h.mode == Supervisor);
  }

  /** The source multiplies the whole scause by 4; the interrupt bit falls out of the 64 bits. */
  lemma TrapTargets(stvec: Word, cause: Word)
    requires ValidVector(stvec)
    ensures Isa.TrapTarget(VectorFields(stvec), cause) ==
      if StvecMode(stvec) == STVEC_DIRECT || cause < SCAUSE_IS_INT
      then stvec - StvecMode(stvec)
      else Wrap(stvec - StvecMode(stvec) + cause * 4)
  {
  }
}
