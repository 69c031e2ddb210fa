/**
 * The CSR instructions on the machine, with the manuals' numbers: which CSR a number names, what it reads as,
 * what a written value does to its fields, for register and immediate operands.
 */
module CsrEffects {
  import opened Words
  import opened Division
  import opened Bits
  import opened Isa
  import opened Machine
  import opened CsrLaws

  // ---- the instruction words ----

  /** A SYSTEM instruction: csr in bits 31 to 20, rs1 or uimm in 19 to 15, funct3 in 14 to 12, rd in 11 to 7. */
  function CsrCode(csr: int, field: RegNumber, funct3: int, rd: RegNumber): int {
    0x73 + 0x80 * rd + 0x1000 * funct3 + 0x8000 * field + 0x10_0000 * csr
  }

  predicate IsCsrFunct3(funct3: int) { 1 <= funct3 <= 3 || 5 <= funct3 <= 7 }

  /** csrrw, csrrs and csrrc are 1, 2 and 3; the immediate forms add 4. */
  function OpOf(funct3: int): CsrOp {
    if funct3 == 1 || funct3 == 5 then Swap else if funct3 == 2 || funct3 == 6 then SetBits else ClearBits
  }

  lemma DecodesCsrCode(csr: int, field: RegNumber, funct3: int, rd: RegNumber)
    requires 0 <= csr < 4096 && IsCsrFunct3(funct3)
    ensures 0 <= CsrCode(csr, field, funct3, rd) < 0x1_0000_0000
    ensures Decode(CsrCode(csr, field, funct3, rd)) == Some(CsrAccess(
      OpOf(funct3), csr, rd, if funct3 <= 3 then FromReg(field) else Immediate(field)))
  {
    var code := CsrCode(csr, field, funct3, rd);
    var n1 := rd + 32 * (funct3 + 8 * (field + 32 * csr));
    assert code == 0x73 + 0x80 * n1;
    Unique(code, 0x80, n1, 0x73);
    Unique(n1, 32, funct3 + 8 * (field + 32 * csr), rd);
    Unique(funct3 + 8 * (field + 32 * csr), 8, field + 32 * csr, funct3);
    Unique(field + 32 * csr, 32, csr, field);
    assert code / 0x1000 == n1 / 32 && code / 0x8000 == code / 0x1000 / 8 && code / 0x10_0000 == code / 0x8000 / 32;
    hide CsrCode;
    assert Funct3(code) == funct3;
  }

  // ---- the nine CSRs by number ----

  /** n is what the CSR with a number reads as; only nine numbers read as anything. */
  predicate ReadsAs(s: Csrs, csr: int, n: int) {
    || (csr == 0x100 && n == 0x8000_0000_0001_E000 + (if s.status.sie then 0x2 else 0)
        + (if s.status.spie then 0x20 else 0) + (if s.status.spp == Supervisor then 0x100 else 0)
        + (if s.status.sum then 0x4_0000 else 0) + (if s.status.mxr then 0x8_0000 else 0))
    || (csr == 0x104 && n == if s.stie then 0x20 else 0)
    || (csr == 0x105 && n == (s.stvec.base + if s.stvec.vectored then 1 else 0) % 0x1_0000_0000_0000_0000)
    || (csr == 0x140 && n == s.sscratch)
    || (csr == 0x141 && n == s.sepc)
    || (csr == 0x142 && n == s.scause)
    || (csr == 0x143 && n == s.stval)
    || (csr == 0x144 && n == if s.stip then 0x20 else 0)
    || (csr == 0x180 && n
        == (s.satp.ppn + if s.satp.sv39 then 0x8000_0000_0000_0000 else 0) % 0x1_0000_0000_0000_0000)
  }

  predicate Bit1(v: Word, weight: int)
    requires weight > 0
  {
    (v / weight) % 2 == 1
  }

  /** What writing v to the CSR with a number leaves: the writable fields of v, and for satp only modes 0 and 8. */
  predicate WrittenAs(s: Csrs, csr: int, v: Word, s1: Csrs) {
    || (csr == 0x100 && s1 == s.(status := Status(Bit1(v, 0x2), Bit1(v, 0x20),
          if Bit1(v, 0x100) then Supervisor else User, Bit1(v, 0x4_0000), Bit1(v, 0x8_0000))))
    || (csr == 0x104 && s1 == s.(stie := Bit1(v, 0x20)))
    || (csr == 0x105 && s1 == s.(stvec := TrapVector(v - v % 4, v % 4 == 1)))
    || (csr == 0x140 && s1 == s.(sscratch := v))
    || (csr == 0x141 && s1 == s.(sepc := v))
    || (csr == 0x142 && s1 == s.(scause := v))
    || (csr == 0x143 && s1 == s.(stval := v))
    || (csr == 0x144 && s1 == s.(stip := Bit1(v, 0x20)))
    || (csr == 0x180 && s1 ==
          if TakesSatp(v) then s.(satp := AddressSpace(v / 0x1000_0000_0000_0000 == 8, v % 0x1000_0000_0000)) else s)
  }

  /** The modes that satp accepts: 0 (Bare) and 8 (Sv39). */
  predicate TakesSatp(v: Word) { v < 0x1000_0000_0000_0000 || 0x8000_0000_0000_0000 <= v < 0x9000_0000_0000_0000 }

  lemma ReadsByNumber(s: Csrs, csr: int, n: int)
    ensures ReadsAs(s, csr, n) <==> CsrAt(csr).Some? && n == ReadCsr(s, CsrAt(csr).value)
  {
  }

  lemma WritesByNumber(s: Csrs, csr: int, v: Word, s1: Csrs)
    ensures WrittenAs(s, csr, v, s1) <==> CsrAt(csr).Some? && s1 == WriteCsr(s, CsrAt(csr).value, v)
  {
    TakesSupported(v);
    hide SatpModeSupported, TakesSatp;
  }

  // ---- the value an instruction writes ----

  /** The new value: the operand, or the old one with the operand's bits set or cleared. */
  predicate Combined(funct3: int, before: Word, operand: Word, after: Word) {
    if funct3 == 1 || funct3 == 5 then after == operand
    else forall k: nat :: k < 64 ==>
      (Bit1(after, Pow2(k)) <==>
        if funct3 == 2 || funct3 == 6 then Bit1(before, Pow2(k)) || Bit1(operand, Pow2(k))
        else Bit1(before, Pow2(k)) && !Bit1(operand, Pow2(k)))
  }

  lemma {:induction false} SameBits(a: nat, b: nat, width: nat)
    requires a < Pow2(width) && b < Pow2(width)
    requires forall k: nat :: k < width ==> BitAt(a, k) == BitAt(b, k)
    ensures a == b
  {
    if width > 0 {
      assert BitAt(a, 0) == BitAt(b, 0);
      forall k: nat | k < width - 1 ensures BitAt(a / 2, k) == BitAt(b / 2, k) {
        assert BitAt(a, k + 1) == BitAt(b, k + 1);
      }
      SameBits(a / 2, b / 2, width - 1);
    }
  }

  /** There is exactly one such value. */
  lemma CombinedIs(funct3: int, op: CsrOp, before: Word, operand: Word, after: Word)
    requires IsCsrFunct3(funct3)
    requires op == OpOf(funct3)
    ensures Combined(funct3, before, operand, after) <==> after == Combine(op, before, operand)
  {
    if op != Swap {
      var own := Combine(op, before, operand);
      Pow2Of64();
      forall k: nat | k < 64
        ensures Bit1(own, Pow2(k)) == if op == SetBits then Bit1(before, Pow2(k)) || Bit1(operand, Pow2(k))
                                      else Bit1(before, Pow2(k)) && !Bit1(operand, Pow2(k))
        ensures Bit1(after, Pow2(k)) == BitAt(after, k) && Bit1(own, Pow2(k)) == BitAt(own, k)
      {
        if op == SetBits { FlagsOfOr(before, operand, k); } else { FlagsOfAndNot(before, operand, k); }
        FlagIsBit(after, k);
        FlagIsBit(own, k);
        hide Or, AndNot, Pow2, BitAt;
      }
      hide Or, AndNot, Pow2, BitAt, Bit1;
      if Combined(funct3, before, operand, after) { SameBits(after, own, 64); }
    }
  }

  // ---- the instruction ----

  /** Set and clear forms with field 0, that is x0 or the immediate 0, do not write. */
  predicate WritesCsr(funct3: int, field: RegNumber) { funct3 == 1 || funct3 == 5 || field != 0 }

  /** The operand: a register, or the field itself as a number from 0 to 31. */
  function OperandOf(x: Regs, funct3: int, field: RegNumber): Word { if funct3 <= 3 then x[field] else field }

  /** s1 is what the instruction leaves of the CSRs when the one it names reads as before. */
  predicate CsrsAfter(h: Hart, csr: int, field: RegNumber, funct3: int, before: Word, after: Word, s1: Csrs) {
    if WritesCsr(funct3, field) then
      Combined(funct3, before, OperandOf(h.x, funct3, field), after) && WrittenAs(h.csrs, csr, after, s1)
    else s1 == h.csrs
  }

  lemma OperandByField(x: Regs, op: CsrOp, funct3: int, field: RegNumber)
    requires IsCsrFunct3(funct3) && (op == Swap <==> funct3 == 1 || funct3 == 5)
    ensures var src := if funct3 <= 3 then FromReg(field) else Immediate(field);
      OperandValue(x, src) == OperandOf(x, funct3, field) && Writes(op, src) == WritesCsr(funct3, field)
  {
  }

  lemma TakesSupported(v: Word)
    ensures SatpModeSupported(v) == TakesSatp(v)
  {
  }

  lemma DispatchesCsr(m: Machine, code: Code, op: CsrOp, csr: int, rd: RegNumber, src: Operand)
    requires m.hart.mode == Supervisor && Decode(code) == Some(CsrAccess(op, csr, rd, src)) && CsrAt(csr).Some?
    ensures var c := CsrAt(csr).value;
      Dispatch(m, IllegalInstruction(code)) == Next(m.(
        hart := AccessCsr(m.hart, op, c, rd, src),
        flushPending := m.flushPending || (c == Satp && Writes(op, src)
          && SatpModeSupported(Combine(op, ReadCsr(m.hart.csrs, Satp), OperandValue(m.hart.x, src))))))
  {
    hide Decode, CsrAt, AccessCsr, Combine, ReadCsr, SatpModeSupported, OperandValue, Writes;
  }

  /** On the hart: the old value goes to rd unless that is x0, pc goes on by 4. */
  lemma AccessActs(
      h: Hart, op: CsrOp, csr: int, field: RegNumber, funct3: int, rd: RegNumber, before: Word, after: Word, s1: Csrs)
    requires IsCsrFunct3(funct3)
    requires op == OpOf(funct3)
    requires ReadsAs(h.csrs, csr, before) && CsrsAfter(h, csr, field, funct3, before, after, s1)
    ensures CsrAt(csr).Some? && before == ReadCsr(h.csrs, CsrAt(csr).value)
    ensures AccessCsr(h, op, CsrAt(csr).value, rd, if funct3 <= 3 then FromReg(field) else Immediate(field))
      == h.(csrs := s1, x := if rd == 0 then h.x else h.x[rd := before], pc := (h.pc + 4) % 0x1_0000_0000_0000_0000)
    ensures WritesCsr(funct3, field) ==> after == Combine(op, before, OperandOf(h.x, funct3, field))
  {
    ReadsByNumber(h.csrs, csr, before);
    CombinedIs(funct3, op, before, OperandOf(h.x, funct3, field), after);
    WritesByNumber(h.csrs, csr, after, s1);
    OperandByField(h.x, op, funct3, field);
    hide CsrAt, ReadCsr, WriteCsr, Combine, OperandValue, ReadsAs, WrittenAs, Combined, OperandOf, Writes, WritesCsr;
  }

  /** On the machine: only a satp write that is accepted makes a flush due. */
  lemma CsrInstructionActs(
      m: Machine, csr: int, field: RegNumber, funct3: int, rd: RegNumber, before: Word, after: Word, s1: Csrs)
    requires m.hart.mode == Supervisor && 0 <= csr < 4096 && IsCsrFunct3(funct3)
    requires ReadsAs(m.hart.csrs, csr, before) && CsrsAfter(m.hart, csr, field, funct3, before, after, s1)
    ensures 0 <= CsrCode(csr, field, funct3, rd) < 0x1_0000_0000
    ensures Dispatch(m, IllegalInstruction(CsrCode(csr, field, funct3, rd))) == Next(m.(
      hart := m.hart.(csrs := s1, x := if rd == 0 then m.hart.x else m.hart.x[rd := before],
                      pc := (m.hart.pc + 4) % 0x1_0000_0000_0000_0000),
      flushPending := m.flushPending || (csr == 0x180 && WritesCsr(funct3, field) && TakesSatp(after))))
  {
    var op := OpOf(funct3);
    DecodesCsrCode(csr, field, funct3, rd);
    AccessActs(m.hart, op, csr, field, funct3, rd, before, after, s1);
    OperandByField(m.hart.x, op, funct3, field);
    TakesSupported(after);
    assert CsrAt(csr) == Some(Satp) <==> csr == 0x180;
    DispatchesCsr(m, CsrCode(csr, field, funct3, rd), op, csr, rd,
                  if funct3 <= 3 then FromReg(field) else Immediate(field));
    hide Dispatch, CsrCode, Decode, CsrAt, AccessCsr, ReadCsr, Combine, OperandValue, SatpModeSupported, TakesSatp;
    hide ReadsAs, CsrsAfter, OperandOf, Writes, WritesCsr;
  }

  /** The numbers that name no CSR stop the emulator, and only they do. */
  lemma OtherNumbersStop(m: Machine, csr: int, field: RegNumber, funct3: int, rd: RegNumber)
    requires m.hart.mode == Supervisor && 0 <= csr < 4096 && IsCsrFunct3(funct3)
    ensures 0 <= CsrCode(csr, field, funct3, rd) < 0x1_0000_0000
    ensures Dispatch(m, IllegalInstruction(CsrCode(csr, field, funct3, rd))).Halt?
      <==> csr !in {0x100, 0x104, 0x105, 0x140, 0x141, 0x142, 0x143, 0x144, 0x180}
  {
    DecodesCsrCode(csr, field, funct3, rd);
    hide CsrCode, Decode, AccessCsr, DropsTranslations;
  }

  lemma StatusOf2(v: Word)
    requires v == 2
    ensures StatusFields(v) == Status(true, false, User, false, false)
  {
    assert v / 0x20 == 0 && v / 0x100 == 0 && v / 0x4_0000 == 0 && v / 0x8_0000 == 0;
  }

  lemma SwitchesSie(h: Hart)
    ensures AccessCsr(h, SetBits, Sstatus, 0, Immediate(2))
      == h.(pc := (h.pc + 4) % 0x1_0000_0000_0000_0000, csrs := h.csrs.(status := h.csrs.status.(sie := true)))
    ensures AccessCsr(h, ClearBits, Sstatus, 0, Immediate(2))
      == h.(pc := (h.pc + 4) % 0x1_0000_0000_0000_0000, csrs := h.csrs.(status := h.csrs.status.(sie := false)))
  {
    SetBitsOnStatus(h.csrs, 2);
    ClearBitsOnStatus(h.csrs, 2);
    StatusOf2(2);
    hide Combine, ReadCsr, WriteCsr, StatusFields;
  }

  lemma SieCodes()
    ensures Decode(0x1001_6073) == Some(CsrAccess(SetBits, 0x100, 0, Immediate(2)))
    ensures Decode(0x1001_7073) == Some(CsrAccess(ClearBits, 0x100, 0, Immediate(2)))
    ensures CsrAt(0x100) == Some(Sstatus)
  {
  }

  /** csrsi sstatus, 2 switches interrupts on and changes nothing else but pc. */
  lemma SwitchesInterruptsOn(m: Machine)
    requires m.hart.mode == Supervisor
    ensures Dispatch(m, IllegalInstruction(0x1001_6073)) == Next(m.(
      hart := m.hart.(pc := (m.hart.pc + 4) % 0x1_0000_0000_0000_0000,
                      csrs := m.hart.csrs.(status := m.hart.csrs.status.(sie := true)))))
  {
    hide *;
    SieCodes();
    DispatchesCsr(m, 0x1001_6073, SetBits, 0x100, 0, Immediate(2));
    SwitchesSie(m.hart);
  }

  /** csrci sstatus, 2 switches them off. */
  lemma SwitchesInterruptsOff(m: Machine)
    requires m.hart.mode == Supervisor
    ensures Dispatch(m, IllegalInstruction(0x1001_7073)) == Next(m.(
      hart := m.hart.(pc := (m.hart.pc + 4) % 0x1_0000_0000_0000_0000,
                      csrs := m.hart.csrs.(status := m.hart.csrs.status.(sie := false)))))
  {
    hide *;
    SieCodes();
    DispatchesCsr(m, 0x1001_7073, ClearBits, 0x100, 0, Immediate(2));
    SwitchesSie(m.hart);
  }
}
