/**
 * Instruction fields, CSR bit-fields and page-table fields, as laid out in riscv-bits.h, on numbers:
 * a field of width w at bit s of n is (n / 2^s) % 2^w.
 */
module Bits {
  import opened Words

  // ---- 32-bit instruction fields ----

  type Code = i: int | 0 <= i < 0x1_0000_0000

  function InsOpcode(i: Code): int { i % 0x80 }
  function InsRd(i: Code): RegNumber { (i / 0x80) % 32 }
  function InsFunct3(i: Code): int { (i / 0x1000) % 8 }
  function InsRs1(i: Code): RegNumber { (i / 0x8000) % 32 }
  function InsRs2(i: Code): RegNumber { (i / 0x10_0000) % 32 }
  function InsFunct7(i: Code): int { (i / 0x200_0000) % 128 }
  function InsCsr(i: Code): int { (i / 0x10_0000) % 4096 }

  const OPCODE_SYSTEM: int := 0x73
  const OPCODE_LOAD: int := 0x03
  const OPCODE_STORE: int := 0x23
  const OPCODE_AMO: int := 0x2F

  const FUNCT3_NOT_CSR: int := 0
  const FUNCT7_WFI: int := 0x08
  const FUNCT7_SRET: int := 0x08
  const FUNCT7_SFENCE_VMA: int := 0x09
  const RS2_WFI: int := 5
  const RS2_SRET: int := 2

  const CSR_OP_RW: int := 1
  const CSR_OP_RS: int := 2
  const CSR_OP_RC: int := 3

  /** CSR_OP_MASK and CSR_USE_UIMM applied to funct3. */
  function CsrOpField(funct3: int): int { funct3 % 4 }
  predicate CsrUsesUimm(funct3: int) { (funct3 / 4) % 2 == 1 }

  const CSR_SSTATUS: int := 0x100
  const CSR_SIE: int := 0x104
  const CSR_STVEC: int := 0x105
  const CSR_SSCRATCH: int := 0x140
  const CSR_SEPC: int := 0x141
  const CSR_SCAUSE: int := 0x142
  const CSR_STVAL: int := 0x143
  const CSR_SIP: int := 0x144
  const CSR_SATP: int := 0x180

  // ---- privilege modes ----

  const PRIV_U: int := 0x00
  const PRIV_S: int := 0x10

  // ---- stvec and scause ----

  const STVEC_DIRECT: int := 0
  const STVEC_VECTORED: int := 1

  /** STVEC_MODE_MASK applied to stvec. */
  function StvecMode(v: Word): int { v % 4 }

  const SCAUSE_IS_INT: int := 0x8000_0000_0000_0000
  const SCAUSE_ILLEGAL: int := 2
  const SCAUSE_UECALL: int := 8
  const SCAUSE_TIMER: int := SCAUSE_IS_INT + 5

  // ---- sstatus ----

  const W_SD: int := 0x8000_0000_0000_0000
  const W_MXR: int := 0x8_0000
  const W_SUM: int := 0x4_0000
  const W_XS: int := 0x8000
  const W_FS: int := 0x2000
  const W_SPP: int := 0x100
  const W_SPIE: int := 0x20
  const W_SIE: int := 0x2
  const SSTATUS_XS_DIRTY: int := 3
  const SSTATUS_SPP_S: int := 1
  const SSTATUS_SPP_U: int := 0

  function GetSd(v: int): int { (v / W_SD) % 2 }
  function GetMxr(v: int): int { (v / W_MXR) % 2 }
  function GetSum(v: int): int { (v / W_SUM) % 2 }
  function GetXs(v: int): int { (v / W_XS) % 4 }
  function GetFs(v: int): int { (v / W_FS) % 4 }
  function GetSpp(v: int): int { (v / W_SPP) % 2 }
  function GetSpie(v: int): int { (v / W_SPIE) % 2 }
  function GetSie(v: int): int { (v / W_SIE) % 2 }

  function SetSd(v: int, f: int): int { v + (f - GetSd(v)) * W_SD }
  function SetXs(v: int, f: int): int { v + (f - GetXs(v)) * W_XS }
  function SetFs(v: int, f: int): int { v + (f - GetFs(v)) * W_FS }
  function SetSpp(v: int, f: int): int { v + (f - GetSpp(v)) * W_SPP }
  function SetSpie(v: int, f: int): int { v + (f - GetSpie(v)) * W_SPIE }
  function SetSie(v: int, f: int): int { v + (f - GetSie(v)) * W_SIE }

  /** A value masked with SSTATUS_WRITABLE_MASK: the MXR, SUM, SPP, SPIE and SIE bits in place. */
  function SstatusWritable(v: int): int {
    GetMxr(v) * W_MXR + GetSum(v) * W_SUM + GetSpp(v) * W_SPP + GetSpie(v) * W_SPIE + GetSie(v) * W_SIE
  }

  // ---- sip and sie ----

  const W_STI: int := 0x20

  function GetSti(v: int): int { (v / W_STI) % 2 }
  function SetSti(v: int, f: int): int { v + (f - GetSti(v)) * W_STI }

  /** A value masked with SIX_WRITABLE_MASK. */
  function SixWritable(v: int): int { GetSti(v) * W_STI }

  // ---- satp ----

  const SATP_MODE_BARE: int := 0
  const SATP_MODE_SV39: int := 8
  const W_ASID: int := 0x1000_0000_0000
  const W_MODE: int := 0x1000_0000_0000_0000

  function GetSatpPpn(v: int): int { v % W_ASID }
  function GetSatpAsid(v: int): int { (v / W_ASID) % 0x1_0000 }
  function GetSatpMode(v: int): int { (v / W_MODE) % 16 }
  function SetSatpAsid(v: int, f: int): int { v + (f - GetSatpAsid(v)) * W_ASID }

  // ---- virtual addresses (the source numbers the root-level index 0) ----

  function GetVaPpn0(va: int): int { (va / 0x4000_0000) % 512 }
  function GetVaPpn1(va: int): int { (va / 0x20_0000) % 512 }
  function GetVaPpn2(va: int): int { (va / 0x1000) % 512 }
  function GetVaOff(va: int): int { va % 0x1000 }

  // ---- compressed loads and stores ----

  predicate RvcLooksLikeLoad(i: int) {
    var op, funct3 := i % 4, (i / 0x2000) % 8;
    (op == 0 || op == 2) && (funct3 == 1 || funct3 == 2 || funct3 == 3)
  }

  predicate RvcLooksLikeStore(i: int) {
    var op, funct3 := i % 4, (i / 0x2000) % 8;
    (op == 0 || op == 2) && (funct3 == 5 || funct3 == 6 || funct3 == 7)
  }
}
