/**
 * Virtual address translation: section 4.3.2 of the Privileged Architecture with the sizes of
 * section 4.4 (Sv39).
 */
module Sv39 {
  import opened Words
  import opened Memory
  import opened Isa

  datatype Access = Fetch | Load | Store

  predicate Valid(pte: int) { pte % 2 == 1 }
  predicate Readable(pte: int) { (pte / 2) % 2 == 1 }
  predicate Writable(pte: int) { (pte / 4) % 2 == 1 }
  predicate Executable(pte: int) { (pte / 8) % 2 == 1 }

  predicate UserAccessible(pte: int) { (pte / 0x10) % 2 == 1 }
  predicate Accessed(pte: int) { (pte / 0x40) % 2 == 1 }
  predicate Dirty(pte: int) { (pte / 0x80) % 2 == 1 }

  predicate IsPointer(pte: int) { !Readable(pte) && !Writable(pte) && !Executable(pte) }

  /**
   * Bits 63 to 54 of an entry are reserved (no Svnapot, no Svpbmt), and so are D, A and U of a pointer
   * to the next level.
   */
  predicate HasReservedBits(pte: int) {
    pte / 0x40_0000_0000_0000 != 0
    || (IsPointer(pte) && (Dirty(pte) || Accessed(pte) || UserAccessible(pte)))
  }

  predicate Permits(pte: int, access: Access) {
    match access
    case Fetch => Executable(pte)
    case Load => Readable(pte)
    case Store => Writable(pte)
  }

  function LevelSize(level: nat): int
    requires level <= 2
  {
    if level == 2 then 0x4000_0000 else if level == 1 then 0x20_0000 else PAGE
  }

  /** The virtual page number field that indexes the table at a level, 2 being the root. */
  function Vpn(va: int, level: nat): int
    requires level <= 2
  {
    (va / LevelSize(level)) % 512
  }

  function PtePpn(pte: int): int { (pte / 0x400) % 0x1000_0000_0000 }

  datatype Walk =
    | OutsideRam
    | Invalid
    | Leaf(level: nat, pte: int)
    | NoLeaf(pte: int)

  lemma PageMultiple(n: int)
    ensures (n * PAGE) % PAGE == 0
  {
  }

  lemma VpnBound(va: int, level: nat)
    requires level <= 2
    ensures 0 <= Vpn(va, level) < 512
  {
  }

  /** A table that starts at a page boundary inside RAM lies in RAM with all its entries. */
  lemma TableInRam(table: int, index: int)
    requires InRam(table) && table % PAGE == 0 && 0 <= index < 512
    ensures 0 <= table - RAM_START + index * 8 <= RAM_SIZE - 8
  {
  }

  /** The entry that a page-aligned table in RAM holds for an address; it lies wholly in RAM. */
  function Entry(ram: Ram, table: int, va: int, level: nat): int
    requires InRam(table) && table % PAGE == 0 && level <= 2
  {
    VpnBound(va, level);
    TableInRam(table, Vpn(va, level));
    Load64(ram, table - RAM_START + Vpn(va, level) * 8)
  }

  /**
   * Steps 2 to 4 of the algorithm from a table at a level downwards. A strict walk faults on
   * reserved bits as step 3 demands; a lenient one ignores them.
   */
  function WalkFrom(strict: bool, ram: Ram, table: int, va: int, level: nat): Walk
    requires table % PAGE == 0 && level <= 2
    decreases level
  {
    if !InRam(table) then OutsideRam
    else
      var pte := Entry(ram, table, va, level);
      if !Valid(pte) || (!Readable(pte) && Writable(pte)) || (strict && HasReservedBits(pte)) then Invalid
      else if Readable(pte) || Executable(pte) then Leaf(level, pte)
      else if level == 0 then NoLeaf(pte)
      else
        PageMultiple(PtePpn(pte));
        WalkFrom(strict, ram, PtePpn(pte) * PAGE, va, level - 1)
  }

  const HALF: int := 0x40_0000_0000

  /** Section 4.4.1: bits 63 to 39 must equal bit 38. */
  predicate Canonical(va: int) {
    0 <= va < HALF || TWO_64 - HALF <= va < TWO_64
  }

  /** Step 6: the low PPN fields of a superpage leaf must be zero. */
  predicate Misaligned(level: nat, pte: int)
    requires level <= 2
  {
    (PtePpn(pte) * PAGE) % LevelSize(level) != 0
  }

  /** Step 8, for an aligned leaf: the offset within the (super)page comes from the virtual address. */
  function LeafAddress(level: nat, pte: int, va: int): int
    requires level <= 2
  {
    PtePpn(pte) * PAGE + va % LevelSize(level)
  }

  datatype Translation = PageFault | AccessFault | Physical(pa: int)

  function RootTable(space: AddressSpace): (table: int)
    ensures table % PAGE == 0
  {
    PageMultiple(space.ppn);
    space.ppn * PAGE
  }

  lemma WalkLevel(strict: bool, ram: Ram, table: int, va: int, level: nat)
    requires table % PAGE == 0 && level <= 2
    ensures var w := WalkFrom(strict, ram, table, va, level); w.Leaf? ==> w.level <= level
    decreases level
  {
  }

  /** The algorithm with a permission step that looks at R, W and X only. */
  function TranslateWith(strict: bool, ram: Ram, space: AddressSpace, va: int, access: Access): Translation {
    if !space.sv39 then Physical(va)
    else if !Canonical(va) then PageFault
    else
      WalkLevel(strict, ram, RootTable(space), va, 2);
      match WalkFrom(strict, ram, RootTable(space), va, 2)
      case OutsideRam => AccessFault
      case Invalid => PageFault
      case NoLeaf(_) => PageFault
      case Leaf(level, pte) =>
        if !Permits(pte, access) || Misaligned(level, pte) then PageFault
        else Physical(LeafAddress(level, pte, va))
  }

  /** ... with the reserved-bit check. */
  function TranslateCore(ram: Ram, space: AddressSpace, va: int, access: Access): Translation {
    TranslateWith(true, ram, space, va, access)
  }

  // ---- the whole algorithm ----

  /** The privilege mode and the sstatus fields that permissions depend on. */
  datatype Rights = Rights(mode: Mode, sum: bool, mxr: bool)

  function RightsOf(h: Hart): Rights { Rights(h.mode, h.csrs.status.sum, h.csrs.status.mxr) }

  /** What an implementation does about a clear A or D bit: both are permitted. */
  datatype AdScheme = FaultOnClear | SetByHardware

  /** Step 5: R, W, X and U against the access, the privilege mode, SUM and MXR. */
  predicate MayAccess(r: Rights, pte: int, access: Access) {
    && (match access
        case Fetch => Executable(pte)
        case Load => Readable(pte) || (r.mxr && Executable(pte))
        case Store => Writable(pte))
    && (if r.mode == User then UserAccessible(pte) else !UserAccessible(pte) || (r.sum && access != Fetch))
  }

  /** Step 7: no fault for the A and D bits. */
  predicate UpToDate(scheme: AdScheme, pte: int, access: Access) {
    scheme == SetByHardware || (Accessed(pte) && (access == Store ==> Dirty(pte)))
  }

  /** Steps 5 and 7 together. */
  predicate Allowed(scheme: AdScheme, r: Rights, pte: int, access: Access) {
    MayAccess(r, pte, access) && UpToDate(scheme, pte, access)
  }

  /** Section 4.3.2 for Sv39. */
  function Translate(scheme: AdScheme, ram: Ram, space: AddressSpace, r: Rights, va: int, access: Access): Translation {
    if !space.sv39 then Physical(va)
    else if !Canonical(va) then PageFault
    else
      WalkLevel(true, ram, RootTable(space), va, 2);
      match WalkFrom(true, ram, RootTable(space), va, 2)
      case OutsideRam => AccessFault
      case Invalid => PageFault
      case NoLeaf(_) => PageFault
      case Leaf(level, pte) =>
        if !Allowed(scheme, r, pte, access) || Misaligned(level, pte) then PageFault
        else Physical(LeafAddress(level, pte, va))
  }
}
