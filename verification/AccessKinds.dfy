/** The stub's guess at the kind of access behind a fault, against the instruction listings of the Unprivileged ISA. */
module AccessKinds {
  import opened Words
  import opened Bits
  import opened Isa
  import opened Sv39
  import opened Machine

  /** Bits 31 to 27 of an atomic instruction; lr is the one that only loads. */
  function Funct5(code: Code): int { code / 0x800_0000 }

  const LR: int := 2

  predicate IsAtomic(code: Code) { code % 0x80 == 0x2F && (Funct3(code) == 2 || Funct3(code) == 3) }

  predicate IsAmoOperation(f: int) {
    f == 0x00 || f == 0x01 || f == 0x04 || f == 0x08 || f == 0x0C || f == 0x10 || f == 0x14 || f == 0x18 || f == 0x1C
  }

  /** lb, lh, lw, ld, lbu, lhu, lwu; sb, sh, sw, sd; flw, fld; fsw, fsd; lr; sc and the other atomics. */
  function AccessOf32(code: Code): Option<Access> {
    if code % 0x80 == 0x03 && Funct3(code) <= 6 then Some(Load)
    else if code % 0x80 == 0x07 && (Funct3(code) == 2 || Funct3(code) == 3) then Some(Load)
    else if code % 0x80 == 0x23 && Funct3(code) <= 3 then Some(Store)
    else if code % 0x80 == 0x27 && (Funct3(code) == 2 || Funct3(code) == 3) then Some(Store)
    else if IsAtomic(code) && Funct5(code) == LR && (code / 0x10_0000) % 32 == 0 then Some(Load)
    else if IsAtomic(code) && (Funct5(code) == 3 || IsAmoOperation(Funct5(code))) then Some(Store)
    else None
  }

  /**
   * Section 16.8 for RV64: quadrant 0 has c.fld, c.lw, c.ld, c.fsd, c.sw and c.sd, quadrant 2 their
   * stack-pointer forms, of which c.lwsp and c.ldsp with rd = x0 are reserved.
   */
  function AccessOf16(code: Code): Option<Access> {
    var f := RvcFunct3(code);
    if code % 4 == 0 then
      if f == 1 || f == 2 || f == 3 then Some(Load) else if f == 5 || f == 6 || f == 7 then Some(Store) else None
    else if code % 4 == 2 then
      if f == 1 || ((f == 2 || f == 3) && (code / 0x80) % 32 != 0) then Some(Load)
      else if f == 5 || f == 6 || f == 7 then Some(Store)
      else None
    else None
  }

  /** How an instruction accesses memory, if it does. */
  function MemoryAccess(code: Code): Option<Access> {
    if code % 4 == 3 then AccessOf32(code) else AccessOf16(code)
  }

  /** The instructions the stub misreads: floating-point loads and stores, and load-reserved. */
  predicate Misread(code: Code) {
    code % 0x80 == 0x07 || code % 0x80 == 0x27 || (IsAtomic(code) && Funct5(code) == LR)
  }

  lemma LowBits(code: Code)
    ensures code % 4 == (code % 0x80) % 4
  {
  }

  lemma Classifies16(va: Word, pc: Word, code: Code)
    requires code % 4 != 3 && AccessOf16(code).Some? && va != pc
    ensures Classify(va, pc, code) == AccessOf16(code).value && !Misread(code)
  {
    LowBits(code);
  }

  lemma Classifies32(va: Word, pc: Word, code: Code)
    requires code % 4 == 3 && AccessOf32(code).Some? && va != pc
    ensures Classify(va, pc, code) == AccessOf32(code).value <==> !Misread(code)
    ensures Misread(code) ==> Classify(va, pc, code) == if IsAtomic(code) then Store else Fetch
  {
    hide Funct3, Funct5;
  }

  /**
   * A fault that a load, store or atomic instruction raises is classified right exactly when its
   * address is not pc itself and the instruction is none of the misread ones; a fault at pc is a fetch.
   */
  lemma ClassifiesAccesses(va: Word, pc: Word, code: Code)
    ensures va == pc ==> Classify(va, pc, code) == Fetch
    ensures MemoryAccess(code).Some? ==>
      (Classify(va, pc, code) == MemoryAccess(code).value <==> va != pc && !Misread(code))
  {
    if MemoryAccess(code).Some? && va != pc {
      if code % 4 == 3 { Classifies32(va, pc, code); } else { Classifies16(va, pc, code); }
    }
    AccessIsData(code);
    hide Misread, Funct3, Funct5, AccessOf16, AccessOf32;
  }

  lemma AccessIsData(code: Code)
    ensures MemoryAccess(code) != Some(Fetch)
  {
    hide Funct3, Funct5, RvcFunct3;
  }

  /** fld and fsd pass for fetches, lr.d for a store. */
  lemma MisreadInstructions(va: Word, pc: Word)
    requires va != pc
    ensures MemoryAccess(0x0005_3007) == Some(Load) && Classify(va, pc, 0x0005_3007) == Fetch
    ensures MemoryAccess(0x0005_3027) == Some(Store) && Classify(va, pc, 0x0005_3027) == Fetch
    ensures MemoryAccess(0x1005_32AF) == Some(Load) && Classify(va, pc, 0x1005_32AF) == Store
  {
  }
}
