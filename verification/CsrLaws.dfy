/** Laws of the CSR instructions: what the guest kernel's idioms for saving, swapping and setting bits achieve. */
module CsrLaws {
  import opened Words
  import opened Division
  import opened Isa
  import CsrWords

  /** The fields every reachable state has: a vector base that is a multiple of four and a 44-bit PPN. */
  predicate WellFormed(s: Csrs) {
    s.stvec.base % 4 == 0 && s.satp.ppn < 0x1000_0000_0000
  }

  /** The fields of any words the emulator stores are well-formed. */
  lemma StoredFieldsAreWellFormed(f: CsrWords.CsrFile)
    requires CsrWords.ValidFile(f)
    ensures WellFormed(CsrWords.Fields(f))
  {
    hide CsrWords.ValidFile;
  }

  // ---- reading back what was written, writing back what was read ----

  lemma StatusFieldsOfImage(s: Status)
    ensures StatusFields(StatusImage(s)) == s
  {
  }

  lemma VectorFieldsOfImage(t: TrapVector)
    requires t.base % 4 == 0
    ensures VectorFields(VectorImage(t)) == t
  {
  }

  lemma SpaceFieldsOfImage(s: AddressSpace)
    requires s.ppn < 0x1000_0000_0000
    ensures SpaceFields(SpaceImage(s)) == s && SatpModeSupported(SpaceImage(s))
  {
  }

  /** Writing back the value read from a CSR changes nothing. */
  lemma WriteBackIsIdentity(s: Csrs, c: Csr)
    requires WellFormed(s)
    ensures WriteCsr(s, c, ReadCsr(s, c)) == s
  {
    match c
    case Sstatus => StatusFieldsOfImage(s.status);
    case Stvec => VectorFieldsOfImage(s.stvec);
    case Satp => SpaceFieldsOfImage(s.satp);
    case _ =>
  }

  // ---- csrrw with sscratch ----

  function SwapWithScratch(h: Hart, r: RegNumber): Hart {
    AccessCsr(h, Swap, Sscratch, r, FromReg(r))
  }

  /** Swapping a register with sscratch moves each value to the other side, although rd equals rs1. */
  lemma SwapExchanges(h: Hart, r: RegNumber)
    requires r != 0
    ensures SwapWithScratch(h, r).x == h.x[r := h.csrs.sscratch]
    ensures SwapWithScratch(h, r).csrs == h.csrs.(sscratch := h.x[r])
  {
  }

  /** Doing it twice restores everything but pc, unless the register is x0 and sscratch held a value. */
  lemma SwapTwice(h: Hart, r: RegNumber)
    ensures SwapWithScratch(SwapWithScratch(h, r), r) == h.(pc := Wrap(h.pc + 8))
      <==> r != 0 || h.csrs.sscratch == 0
  {
    var h1 := SwapWithScratch(h, r);
    var h2 := SwapWithScratch(h1, r);
    assert h2.pc == Wrap(h.pc + 8);
    if r != 0 {
      SwapExchanges(h, r);
      SwapExchanges(h1, r);
      assert h2.x == h.x;
    }
  }

  // ---- csrrs and csrrc on sstatus ----

  /** A flag of weight 2^k is bit k. */
  lemma {:induction false} FlagIsBit(n: Word, k: nat)
    ensures Flag(n, Pow2(k)) <==> BitAt(n, k)
  {
    if k > 0 {
      Halve(n, Pow2(k - 1));
      FlagIsBit(n / 2, k - 1);
    }
  }

  lemma FlagsOfOr(a: Word, b: Word, k: nat)
    requires k < 64
    ensures Flag(Or(a, b), Pow2(k)) <==> Flag(a, Pow2(k)) || Flag(b, Pow2(k))
  {
    OrBitAt(a, b, 64, k);
    FlagIsBit(a, k);
    FlagIsBit(b, k);
    FlagIsBit(Or(a, b), k);
  }

  lemma FlagsOfAndNot(a: Word, b: Word, k: nat)
    requires k < 64
    ensures Flag(AndNot(a, b), Pow2(k)) <==> Flag(a, Pow2(k)) && !Flag(b, Pow2(k))
  {
    AndNotBitAt(a, b, 64, k);
    FlagIsBit(a, k);
    FlagIsBit(b, k);
    FlagIsBit(AndNot(a, b), k);
  }

  lemma StatusWeights()
    ensures Pow2(1) == 0x2 && Pow2(5) == 0x20 && Pow2(8) == 0x100 && Pow2(18) == 0x4_0000 && Pow2(19) == 0x8_0000
  {
    Pow2Sum(4, 4);
    Pow2Sum(8, 8);
    Pow2Sum(16, 2);
    Pow2Sum(16, 3);
  }

  function MostPrivileged(a: Mode, b: Mode): Mode { if a == Supervisor then a else b }

  /** csrrs on sstatus switches on exactly the fields selected by the operand. */
  lemma SetBitsOnStatus(s: Csrs, v: Word)
    ensures var t := StatusFields(v);
      WriteCsr(s, Sstatus, Combine(SetBits, ReadCsr(s, Sstatus), v))
      == s.(status := Status(s.status.sie || t.sie, s.status.spie || t.spie, MostPrivileged(s.status.spp, t.spp),
                             s.status.sum || t.sum, s.status.mxr || t.mxr))
  {
    var image := StatusImage(s.status);
    StatusWeights();
    StatusFieldsOfImage(s.status);
    FlagsOfOr(image, v, 1);
    FlagsOfOr(image, v, 5);
    FlagsOfOr(image, v, 8);
    FlagsOfOr(image, v, 18);
    FlagsOfOr(image, v, 19);
    hide Flag, StatusImage, Or, Pow2;
  }

  /** csrrc on sstatus switches off exactly those. */
  lemma ClearBitsOnStatus(s: Csrs, v: Word)
    ensures var t := StatusFields(v);
      WriteCsr(s, Sstatus, Combine(ClearBits, ReadCsr(s, Sstatus), v))
      == s.(status := Status(s.status.sie && !t.sie, s.status.spie && !t.spie,
                             if t.spp == Supervisor then User else s.status.spp,
                             s.status.sum && !t.sum, s.status.mxr && !t.mxr))
  {
    var image := StatusImage(s.status);
    StatusWeights();
    StatusFieldsOfImage(s.status);
    FlagsOfAndNot(image, v, 1);
    FlagsOfAndNot(image, v, 5);
    FlagsOfAndNot(image, v, 8);
    FlagsOfAndNot(image, v, 18);
    FlagsOfAndNot(image, v, 19);
    hide Flag, StatusImage, AndNot, Pow2;
  }
}
