/** What the emulator's walker and permission check grant, against the Sv39 algorithm. */
module Walker {
  import opened Words
  import opened Division
  import opened Memory
  import opened Isa
  import opened Sv39
  import opened HostVm
  import opened Machine

  /** The RAM address the emulator lets an access reach, if any. */
  function Grants(ram: Ram, space: AddressSpace, va: int, access: Access): Option<int> {
    match LookUp(ram, space, va)
    case Found(pa, pte) => if InRam(pa) && Permits(pte, access) then Some(pa) else None
    case _ => None
  }

  predicate IsSuperpage(w: Walk) { w.Leaf? && w.level > 0 }

  function RootWalk(strict: bool, ram: Ram, space: AddressSpace, va: int): Walk {
    WalkFrom(strict, ram, RootTable(space), va, 2)
  }

  // ---- facts about entries and addresses ----

  lemma UserIsCanonical(va: int)
    requires IsUser(va)
    ensures Canonical(va) && SignExtended39(va)
  {
  }

  /** The sign check accepts exactly the canonical addresses and those whose bit 38 is wrong. */
  lemma SignCheckAccepts(va: Word)
    ensures SignExtended39(va) <==>
      Canonical(va) || HALF <= va < 2 * HALF || TWO_64 - 2 * HALF <= va < TWO_64 - HALF
  {
  }

  lemma LowestLevelIsAligned(pte: int)
    ensures !Misaligned(0, pte)
  {
    PageMultiple(PtePpn(pte));
  }

  /** A pointer at the lowest level has no permission at all. */
  lemma NoLeafPermitsNothing(strict: bool, ram: Ram, table: int, va: int, level: nat)
    requires table % PAGE == 0 && level <= 2
    ensures var w := WalkFrom(strict, ram, table, va, level);
      w.NoLeaf? ==> forall access :: !Permits(w.pte, access)
    decreases level
  {
    if InRam(table) && level > 0 {
      var pte := Entry(ram, table, va, level);
      PageMultiple(PtePpn(pte));
      NoLeafPermitsNothing(strict, ram, PtePpn(pte) * PAGE, va, level - 1);
    }
  }

  // ---- the grant is the standard's, with reserved bits ignored ----

  /**
   * For canonical addresses under Sv39 the emulator grants a RAM address exactly when the algorithm
   * with reserved bits ignored yields it from an ordinary page; superpages are the only loss. In
   * particular a last-level entry with R, W and X all clear, which the walker returns, is refused. Read
   * off the bytes of RAM, it is the address that three entries lead to.
   */
  lemma GrantsLikeSv39(ram: Ram, space: AddressSpace, va: Word, access: Access, pa: int)
    requires space.sv39 && Canonical(va)
    ensures Grants(ram, space, va, access) == Some(pa) <==>
      && TranslateWith(false, ram, space, va, access) == Physical(pa)
      && InRam(pa)
      && !IsSuperpage(RootWalk(false, ram, space, va))
    ensures Grants(ram, space, va, access) == Some(pa) <==> GrantedByPath(ram, space.ppn, va, access, pa)
  {
    GrantsByPath(ram, space.ppn, va, access, pa);
    var w := RootWalk(false, ram, space, va);
    NoLeafPermitsNothing(false, ram, RootTable(space), va, 2);
    if w.Leaf? { LowestLevelIsAligned(w.pte); }
    hide GrantedByPath;
  }

  // ---- reserved bits ----

  /** Some entry the walk reads has a reserved bit set. */
  predicate ReservedOnPath(ram: Ram, table: int, va: int, level: nat)
    requires table % PAGE == 0 && level <= 2
    decreases level
  {
    InRam(table) &&
    var pte := Entry(ram, table, va, level);
    HasReservedBits(pte)
    || (Sv39.Valid(pte) && !Readable(pte) && !Writable(pte) && !Executable(pte) && level > 0
        && (PageMultiple(PtePpn(pte)); ReservedOnPath(ram, PtePpn(pte) * PAGE, va, level - 1)))
  }

  /** A strict walk fails on reserved bits and is otherwise the lenient walk. */
  lemma {:induction false} StrictWalk(ram: Ram, table: int, va: int, level: nat)
    requires table % PAGE == 0 && level <= 2
    ensures WalkFrom(true, ram, table, va, level) ==
      if ReservedOnPath(ram, table, va, level) then Invalid else WalkFrom(false, ram, table, va, level)
    decreases level
  {
    if InRam(table) && level > 0 {
      var pte := Entry(ram, table, va, level);
      PageMultiple(PtePpn(pte));
      StrictWalk(ram, PtePpn(pte) * PAGE, va, level - 1);
    }
  }

  predicate ReservedOnRootPath(ram: Ram, space: AddressSpace, va: int) {
    ReservedOnPath(ram, RootTable(space), va, 2)
  }

  lemma StrictRootWalk(ram: Ram, space: AddressSpace, va: int)
    ensures RootWalk(true, ram, space, va) ==
      if ReservedOnRootPath(ram, space, va) then Invalid else RootWalk(false, ram, space, va)
  {
    StrictWalk(ram, RootTable(space), va, 2);
  }

  /** The algorithm as a function of what the walk from the root finds. */
  lemma TranslateByWalk(strict: bool, ram: Ram, space: AddressSpace, va: int, access: Access)
    requires space.sv39 && Canonical(va)
    ensures RootWalk(strict, ram, space, va) == RootWalk(false, ram, space, va) ==>
      TranslateWith(strict, ram, space, va, access) == TranslateWith(false, ram, space, va, access)
    ensures RootWalk(strict, ram, space, va) == Invalid ==> TranslateWith(strict, ram, space, va, access) == PageFault
  {
    hide WalkFrom, Misaligned, LeafAddress;
  }

  /**
   * With the reserved-bit check: the R/W/X algorithm yields a RAM address from an ordinary page exactly
   * when the emulator grants it and no entry read has a reserved bit.
   */
  lemma GrantsLikeStrictSv39(ram: Ram, space: AddressSpace, va: int, access: Access, pa: int)
    requires space.sv39 && Canonical(va)
    ensures Grants(ram, space, va, access) == Some(pa) && !ReservedOnRootPath(ram, space, va) <==>
      && TranslateCore(ram, space, va, access) == Physical(pa)
      && InRam(pa)
      && !IsSuperpage(RootWalk(true, ram, space, va))
  {
    GrantsLikeSv39(ram, space, va, access, pa);
    StrictRootWalk(ram, space, va);
    TranslateByWalk(true, ram, space, va, access);
    hide RootWalk, Grants, ReservedOnRootPath, TranslateWith;
  }

  // ---- small page tables on which the emulator and the standard differ ----

  /**
   * One page that is its own table at every level: entries 0 and 256 point back at it, entry 0 with a
   * chosen top byte, entry 1 maps it with chosen flags, and entry 2 maps the block device.
   */
  function TinyRam(top: Byte, flags: Byte): Ram {
    seq(RAM_SIZE, i =>
      if i == 0 || i == 2048 then 0x01
      else if i == 8 then flags
      else if i == 7 then top
      else if i == 16 then 0x07
      else if i == 18 then 0x10
      else if i == 19 then 0x04
      else if i == 3 || i == 11 || i == 2051 then 0x20
      else 0)
  }

  const TINY_SPACE: AddressSpace := AddressSpace(true, 0x8_0000)
  const LOW_VA: Word := 0x1000
  const HIGH_VA: Word := 0x40_0000_1000

  function LoopPte(top: Byte): int { 0x2000_0001 + (top as int) * 0x100_0000_0000_0000 }
  function PagePte(flags: Byte): int { 0x2000_0000 + flags as int }

  predicate TinyTop(top: Byte) { top == 0 || top == 0x80 }
  /** V and R; V, R, W and X; V, X, U and A. */
  predicate TinyFlags(flags: Byte) { flags == 0x03 || flags == 0x0F || flags == 0x59 }

  lemma LoopEntry(top: Byte)
    requires TinyTop(top)
    ensures var pte := LoopPte(top);
      && Sv39.Valid(pte) && !Readable(pte) && !Writable(pte) && !Executable(pte)
      && HasReservedBits(pte) == (top == 0x80) && PtePpn(pte) == 0x8_0000
  {
    if top == 0 { assert LoopPte(top) == 0x2000_0001; } else { assert LoopPte(top) == 0x8000_0000_2000_0001; }
  }

  lemma PageEntry(flags: Byte)
    requires TinyFlags(flags)
    ensures var pte := PagePte(flags);
      && Sv39.Valid(pte) && Readable(pte) == (flags != 0x59) && Writable(pte) == (flags == 0x0F)
      && Executable(pte) == (flags != 0x03) && UserAccessible(pte) == Accessed(pte) == (flags == 0x59)
      && !HasReservedBits(pte) && PtePpn(pte) == 0x8_0000
  {
    if flags == 0x03 {
      assert PagePte(flags) == 0x2000_0003;
    } else if flags == 0x0F {
      assert PagePte(flags) == 0x2000_000F;
    } else {
      assert PagePte(flags) == 0x2000_0059;
    }
  }

  lemma TinyEntries(top: Byte, flags: Byte, va: Word)
    requires va == LOW_VA || va == HIGH_VA
    ensures RootTable(TINY_SPACE) == RAM_START && RAM_START % PAGE == 0 && va % PAGE == 0
    ensures Entry(TinyRam(top, flags), RAM_START, va, 2) == LoopPte(if va == LOW_VA then top else 0)
    ensures Entry(TinyRam(top, flags), RAM_START, va, 1) == LoopPte(top)
    ensures Entry(TinyRam(top, flags), RAM_START, va, 0) == PagePte(flags)
  {
    assert Vpn(va, 2) == (if va == LOW_VA then 0 else 256) && Vpn(va, 1) == 0 && Vpn(va, 0) == 1;
    var ram := TinyRam(top, flags);
    assert Load64(ram, 0) == LoopPte(top);
    assert Load64(ram, 8) == PagePte(flags);
    assert Load64(ram, 2048) == LoopPte(0);
  }

  /** Both addresses find the page. */
  lemma TinyWalk(top: Byte, flags: Byte, va: Word)
    requires (va == LOW_VA || va == HIGH_VA) && TinyTop(top) && TinyFlags(flags)
    ensures RootWalk(false, TinyRam(top, flags), TINY_SPACE, va) == Leaf(0, PagePte(flags))
    ensures top == 0x80 && va == LOW_VA ==> RootWalk(true, TinyRam(top, flags), TINY_SPACE, va) == Invalid
  {
    var ram := TinyRam(top, flags);
    TinyEntries(top, flags, va);
    LoopEntry(top);
    LoopEntry(0);
    PageEntry(flags);
    assert InRam(RAM_START) && 0x8_0000 * PAGE == RAM_START;
    hide TinyRam, Entry, Sv39.Valid, Readable, Writable, Executable, HasReservedBits, PtePpn, LoopPte, PagePte;
    hide RootTable;
    assert WalkFrom(false, ram, RAM_START, va, 0) == Leaf(0, PagePte(flags));
    assert WalkFrom(false, ram, RAM_START, va, 1) == WalkFrom(false, ram, RAM_START, va, 0);
    assert WalkFrom(false, ram, RAM_START, va, 2) == WalkFrom(false, ram, RAM_START, va, 1);
  }

  lemma TinyLookup(top: Byte, flags: Byte, va: Word)
    requires (va == LOW_VA || va == HIGH_VA) && TinyTop(top) && TinyFlags(flags)
    ensures LookUp(TinyRam(top, flags), TINY_SPACE, va) == Found(RAM_START, PagePte(flags))
  {
    TinyWalk(top, flags, va);
    PageEntry(flags);
    assert va % PAGE == 0 && 0x8_0000 * PAGE == RAM_START && SignExtended39(va);
    hide TinyRam, WalkFrom, PtePpn, PagePte, SignExtended39;
  }

  lemma TinyGrant(top: Byte, flags: Byte, va: Word, access: Access)
    requires (va == LOW_VA || va == HIGH_VA) && TinyTop(top) && TinyFlags(flags)
    ensures Grants(TinyRam(top, flags), TINY_SPACE, va, access)
      == if flags == 0x0F || (flags == 0x03 && access == Access.Load) || (flags == 0x59 && access == Fetch)
         then Some(RAM_START) else None
  {
    TinyLookup(top, flags, va);
    PageEntry(flags);
    assert InRam(RAM_START);
    hide TinyRam, LookUp, PagePte, Readable, Writable, Executable;
  }

  /** The standard faults on this read because of a reserved bit, the emulator grants it. */
  lemma ReservedBitsAreIgnored()
    ensures Grants(TinyRam(0x80, 0x0F), TINY_SPACE, LOW_VA, Access.Load) == Some(RAM_START)
    ensures TranslateCore(TinyRam(0x80, 0x0F), TINY_SPACE, LOW_VA, Access.Load) == PageFault
  {
    TinyGrant(0x80, 0x0F, LOW_VA, Access.Load);
    TinyWalk(0x80, 0x0F, LOW_VA);
    TranslateByWalk(true, TinyRam(0x80, 0x0F), TINY_SPACE, LOW_VA, Access.Load);
    hide TinyRam, LookUp, RootWalk, Grants, TranslateWith;
  }

  // ---- one entry serves a whole page ----

  lemma SamePageSameVpn(va: int, vb: int, level: nat)
    requires PageOf(va) == PageOf(vb) && level <= 2
    ensures Vpn(va, level) == Vpn(vb, level)
  {
    assert va / 0x20_0000 == (va / PAGE) / 512;
    assert va / 0x4000_0000 == (va / PAGE) / 0x4_0000;
    assert vb / 0x20_0000 == (vb / PAGE) / 512;
    assert vb / 0x4000_0000 == (vb / PAGE) / 0x4_0000;
  }

  lemma {:induction false} SamePageSameWalk(strict: bool, ram: Ram, table: int, va: int, vb: int, level: nat)
    requires PageOf(va) == PageOf(vb) && table % PAGE == 0 && level <= 2
    ensures WalkFrom(strict, ram, table, va, level) == WalkFrom(strict, ram, table, vb, level)
    decreases level
  {
    SamePageSameVpn(va, vb, level);
    if InRam(table) && level > 0 {
      var pte := Entry(ram, table, va, level);
      PageMultiple(PtePpn(pte));
      SamePageSameWalk(strict, ram, PtePpn(pte) * PAGE, va, vb, level - 1);
    }
  }

  /** Two addresses in one page find the same entry, at addresses that differ by their offsets. */
  lemma SamePageSameLookup(ram: Ram, space: AddressSpace, va: Word, vb: Word)
    requires PageOf(va) == PageOf(vb)
    ensures match LookUp(ram, space, va)
      case Found(pa, pte) => LookUp(ram, space, vb) == Found(pa - va % PAGE + vb % PAGE, pte)
      case other => LookUp(ram, space, vb) == other
  {
    SamePageSameWalk(false, ram, RootTable(space), va, vb, 2);
    SamePageSameSign(va, vb);
    hide WalkFrom, SignExtended39;
  }

  lemma SamePageSameSign(va: Word, vb: Word)
    requires PageOf(va) == PageOf(vb)
    ensures SignExtended39(va) == SignExtended39(vb)
  {
  }

  /** ... and their pages' frames agree. */
  lemma SamePageSameFrame(pa: int, pb: int, pte: int, va: int, vb: int)
    requires pa % PAGE == va % PAGE && pb == pa - va % PAGE + vb % PAGE
    ensures InRam(pa) == InRam(pb)
    ensures InRam(pa) ==> PageFor(pa, pte) == PageFor(pb, pte)
  {
    var frame := (pa - va % PAGE - RAM_START) / PAGE;
    assert pa - RAM_START == frame * PAGE + va % PAGE;
    Unique(pa - RAM_START, PAGE, frame, va % PAGE);
    Unique(pb - RAM_START, PAGE, frame, vb % PAGE);
    hide Readable, Writable, Executable;
  }

  /** The page offset of an address survives translation. */
  lemma LookupKeepsOffset(ram: Ram, space: AddressSpace, va: Word)
    ensures match LookUp(ram, space, va)
      case Found(pa, pte) => pa % PAGE == va % PAGE && pa == PtePpn(pte) * PAGE + va % PAGE
      case _ => true
  {
    hide WalkFrom, SignExtended39, PtePpn;
  }

  // ---- entries and the walk, spelled out on the bytes of RAM ----

  lemma DropBit(low: int, rest: int)
    requires 0 <= low < 2
    ensures (low + 2 * rest) % 2 == low && (low + 2 * rest) / 2 == rest
  {
  }

  lemma FourBits(a: int, b: int, c: int, d: int, rest: int)
    requires 0 <= a < 2 && 0 <= b < 2 && 0 <= c < 2 && 0 <= d < 2 && 0 <= rest
    ensures var n := a + 2 * b + 4 * c + 8 * d + 0x10 * rest;
      n % 2 == a && (n / 2) % 2 == b && (n / 4) % 2 == c && (n / 8) % 2 == d && n / 0x10 == rest
  {
    var n := a + 2 * b + 4 * c + 8 * d + 0x10 * rest;
    DropBit(a, b + 2 * (c + 2 * (d + 2 * rest)));
    DropBit(b, c + 2 * (d + 2 * rest));
    DropBit(c, d + 2 * rest);
    DropBit(d, rest);
    assert n / 4 == n / 2 / 2 && n / 8 == n / 4 / 2 && n / 0x10 == n / 8 / 2;
  }

  lemma PageNumberAbove(rsw: int, ppn: int, high: int)
    requires 0 <= rsw < 4 && 0 <= ppn < 0x1000_0000_0000 && 0 <= high
    ensures var n := rsw + 4 * ppn + 0x4000_0000_0000 * high; 0 <= n && (n / 4) % 0x1000_0000_0000 == ppn
  {
    assert (rsw + 4 * ppn + 0x4000_0000_0000 * high) / 4 == ppn + 0x1000_0000_0000 * high;
    Unique(ppn + 0x1000_0000_0000 * high, 0x1000_0000_0000, high, ppn);
  }

  lemma NestedQuotients(n: int)
    requires 0 <= n
    ensures n / 0x40 == n / 0x10 / 4 && n / 0x80 == n / 0x10 / 8 && n / 0x400 == n / 0x10 / 0x10 / 4
  {
  }

  /** Bits 0 to 7 of an entry are V, R, W, X, U, G, A and D, bits 10 to 53 the page number. */
  lemma EntryFields(v: int, r: int, w: int, x: int, u: int, g: int, a: int, d: int, rsw: int, ppn: int, high: int)
    requires 0 <= v < 2 && 0 <= r < 2 && 0 <= w < 2 && 0 <= x < 2
    requires 0 <= u < 2 && 0 <= g < 2 && 0 <= a < 2 && 0 <= d < 2
    requires 0 <= rsw < 4 && 0 <= ppn < 0x1000_0000_0000 && 0 <= high
    ensures var pte := v + 2 * r + 4 * w + 8 * x + 0x10 * u + 0x20 * g + 0x40 * a + 0x80 * d + 0x100 * rsw
        + 0x400 * ppn + 0x40_0000_0000_0000 * high;
      && Sv39.Valid(pte) == (v == 1) && Readable(pte) == (r == 1) && Writable(pte) == (w == 1)
      && Executable(pte) == (x == 1) && UserAccessible(pte) == (u == 1)
      && Accessed(pte) == (a == 1) && Dirty(pte) == (d == 1) && PtePpn(pte) == ppn
  {
    var above := rsw + 4 * ppn + 0x4000_0000_0000 * high;
    var middle := u + 2 * g + 4 * a + 8 * d + 0x10 * above;
    PageNumberAbove(rsw, ppn, high);
    FourBits(u, g, a, d, above);
    FourBits(v, r, w, x, middle);
    NestedQuotients(v + 2 * r + 4 * w + 8 * x + 0x10 * middle);
  }

  /** The bytes of the entry that a table holds for an address: eight at the index of the level's nine bits. */
  lemma EntryBytes(ram: Ram, table: int, va: int, level: nat)
    requires InRam(table) && table % PAGE == 0 && level <= 2
    ensures var at := table - 0x8000_0000 + 8 * TableIndex(va, level);
      0 <= at <= RAM_SIZE - 8 && Stores64(ram, at, Entry(ram, table, va, level))
  {
    VpnBound(va, level);
    TableInRam(table, Vpn(va, level));
    Load64Bytes(ram, table - RAM_START + Vpn(va, level) * 8);
    hide Load64, Stores64;
  }

  /** The index of an address in a table: nine bits from bit 30, 21 or 12. */
  function TableIndex(va: int, level: nat): int {
    (va / (if level == 2 then 0x4000_0000 else if level == 1 then 0x20_0000 else 0x1000)) % 512
  }

  /** RAM holds n as entry number index of the table with a page number. */
  predicate Holds(ram: Ram, ppn: int, index: int, n: int) {
    && 0x8_0000 <= ppn < 0x8_1000 && 0 <= index < 512
    && Stores64(ram, (ppn - 0x8_0000) * 0x1000 + 8 * index, n)
  }

  /** RAM holds one entry at each place of a table in RAM: the one the walk reads for an address. */
  lemma HeldEntry(ram: Ram, ppn: int, va: int, level: nat, index: int, n: int)
    requires level <= 2 && index == TableIndex(va, level)
    ensures (ppn * PAGE) % PAGE == 0 && 0 <= index < 512
    ensures Holds(ram, ppn, index, n) <==> InRam(ppn * PAGE) && Entry(ram, ppn * PAGE, va, level) == n
  {
    PageMultiple(ppn);
    VpnBound(va, level);
    if InRam(ppn * PAGE) {
      EntryBytes(ram, ppn * PAGE, va, level);
      var at := (ppn - 0x8_0000) * 0x1000 + 8 * index;
      if Stores64(ram, at, n) { WordIsUnique(ram, at, n, Entry(ram, ppn * PAGE, va, level)); }
    }
    hide Entry, Stores64;
  }

  /** An entry without V, or with W and not R. */
  predicate Broken(n: int) { n % 2 == 0 || n % 8 == 5 }

  /** The page number that bits 10 to 53 of an entry hold. */
  function PageNumber(n: int): int { (n / 0x400) % 0x1000_0000_0000 }

  predicate IsTablePointer(n: int) { n % 16 == 1 }

  lemma EntryKinds(n: int)
    requires 0 <= n
    ensures Broken(n) <==> !Sv39.Valid(n) || (!Readable(n) && Writable(n))
    ensures IsTablePointer(n) <==> Sv39.Valid(n) && !Readable(n) && !Writable(n) && !Executable(n)
  {
    assert n / 4 == n / 2 / 2 && n / 8 == n / 4 / 2;
    assert n % 8 == n % 2 + 2 * ((n / 2) % 2) + 4 * ((n / 4) % 2);
    assert n % 16 == n % 8 + 8 * ((n / 8) % 2);
  }

  /** The three entries of a walk: the first two point to the next table. */
  datatype Path = Path(root: int, middle: int, last: int)

  /** The entries of a path down to the lowest level, none of them broken. */
  predicate LeadsDown(ram: Ram, ppn: int, va: int, p: Path) {
    var middle, last := PageNumber(p.root), PageNumber(p.middle);
    && Holds(ram, ppn, TableIndex(va, 2), p.root) && IsTablePointer(p.root)
    && Holds(ram, middle, TableIndex(va, 1), p.middle) && IsTablePointer(p.middle)
    && Holds(ram, last, TableIndex(va, 0), p.last) && !Broken(p.last)
  }

  /** A broken entry at some level, with pointers above it. */
  predicate BreaksOff(ram: Ram, ppn: int, va: int, p: Path) {
    var middle, last := PageNumber(p.root), PageNumber(p.middle);
    && Holds(ram, ppn, TableIndex(va, 2), p.root)
    && (Broken(p.root)
        || (IsTablePointer(p.root) && Holds(ram, middle, TableIndex(va, 1), p.middle)
            && (Broken(p.middle)
                || (IsTablePointer(p.middle) && Holds(ram, last, TableIndex(va, 0), p.last) && Broken(p.last)))))
  }

  /** The path the walk takes, where there are tables. */
  function PathOf(ram: Ram, ppn: int, va: int): Path {
    var root := EntryOr0(ram, ppn, va, 2);
    var middle := EntryOr0(ram, PageNumber(root), va, 1);
    Path(root, middle, EntryOr0(ram, PageNumber(middle), va, 0))
  }

  function EntryOr0(ram: Ram, ppn: int, va: int, level: nat): int
    requires level <= 2
  {
    PageMultiple(ppn);
    if InRam(ppn * PAGE) then Entry(ram, ppn * PAGE, va, level) else 0
  }

  function TableAt(ppn: int): (table: int)
    ensures table % PAGE == 0
  {
    PageMultiple(ppn);
    ppn * PAGE
  }

  /** What one level makes of an entry, if RAM holds one there, and of the walk from the table it points to. */
  predicate LevelOf(level: nat, held: bool, n: int, below: Walk, w: Walk) {
    if !held then w == OutsideRam
    else if Broken(n) then w == Invalid
    else if !IsTablePointer(n) then w == Leaf(level, n)
    else if level == 0 then w == NoLeaf(n)
    else w == below
  }

  lemma LevelByEntry(ram: Ram, ppn: int, va: int, level: nat)
    requires level <= 2
    ensures var n := EntryOr0(ram, ppn, va, level);
      && (Broken(n) ==> !IsTablePointer(n))
      && LevelOf(level, Holds(ram, ppn, TableIndex(va, level), n), n,
           WalkFrom(false, ram, TableAt(PageNumber(n)), va, if level == 0 then 0 else level - 1),
           WalkFrom(false, ram, TableAt(ppn), va, level))
  {
    var n := EntryOr0(ram, ppn, va, level);
    HeldEntry(ram, ppn, va, level, TableIndex(va, level), n);
    PageMultiple(PtePpn(n));
    if Holds(ram, ppn, TableIndex(va, level), n) { EntryKinds(n); }
    assert PageNumber(n) == PtePpn(n);
    if IsTablePointer(n) { assert !Broken(n); }
    hide Holds, TableIndex, Entry, Broken, IsTablePointer, PtePpn, PageNumber, Sv39.Valid, Readable, Writable;
    hide Executable;
  }

  lemma OnlyPath(ram: Ram, ppn: int, va: int, p: Path)
    ensures LeadsDown(ram, ppn, va, p) ==> p == PathOf(ram, ppn, va)
    ensures BreaksOff(ram, ppn, va, p) ==> BreaksOff(ram, ppn, va, PathOf(ram, ppn, va))
  {
    var own := PathOf(ram, ppn, va);
    HeldEntry(ram, ppn, va, 2, TableIndex(va, 2), p.root);
    HeldEntry(ram, PageNumber(p.root), va, 1, TableIndex(va, 1), p.middle);
    HeldEntry(ram, PageNumber(p.middle), va, 0, TableIndex(va, 0), p.last);
    hide Holds, TableIndex, Entry, Broken, IsTablePointer, PageNumber, WalkFrom;
  }

  function Ending(last: int): Walk { if IsTablePointer(last) then NoLeaf(last) else Leaf(0, last) }

  /** The walk from a table by the entries of a path from there. */
  predicate WalkIs(w: Walk, p: Path, leads: bool, breaks: bool) {
    && (leads ==> w == Ending(p.last))
    && (!leads ==> !w.NoLeaf? && (w.Leaf? ==> w.level > 0))
    && (breaks <==> w == Invalid)
  }

  lemma ThreeLevels(p: Path, w: Walk, w1: Walk, w0: Walk, below: Walk, held: bool, held1: bool, held0: bool)
    requires Broken(p.root) ==> !IsTablePointer(p.root)
    requires Broken(p.middle) ==> !IsTablePointer(p.middle)
    requires Broken(p.last) ==> !IsTablePointer(p.last)
    requires LevelOf(2, held, p.root, w1, w) && LevelOf(1, held1, p.middle, w0, w1)
    requires LevelOf(0, held0, p.last, below, w0)
    ensures WalkIs(w, p,
      held && IsTablePointer(p.root) && held1 && IsTablePointer(p.middle) && held0 && !Broken(p.last),
      held && (Broken(p.root) || (IsTablePointer(p.root) && held1
        && (Broken(p.middle) || (IsTablePointer(p.middle) && held0 && Broken(p.last))))))
  {
    hide Broken, IsTablePointer;
  }

  lemma WalkByPath(ram: Ram, ppn: int, va: int)
    ensures var p := PathOf(ram, ppn, va);
      WalkIs(WalkFrom(false, ram, TableAt(ppn), va, 2), p, LeadsDown(ram, ppn, va, p), BreaksOff(ram, ppn, va, p))
  {
    var p := PathOf(ram, ppn, va);
    LevelByEntry(ram, ppn, va, 2);
    LevelByEntry(ram, PageNumber(p.root), va, 1);
    LevelByEntry(ram, PageNumber(p.middle), va, 0);
    var w1 := WalkFrom(false, ram, TableAt(PageNumber(p.root)), va, 1);
    var w0 := WalkFrom(false, ram, TableAt(PageNumber(p.middle)), va, 0);
    var below := WalkFrom(false, ram, TableAt(PageNumber(p.last)), va, 0);
    ThreeLevels(p, WalkFrom(false, ram, TableAt(ppn), va, 2), w1, w0, below,
      Holds(ram, ppn, TableIndex(va, 2), p.root), Holds(ram, PageNumber(p.root), TableIndex(va, 1), p.middle),
      Holds(ram, PageNumber(p.middle), TableIndex(va, 0), p.last));
    hide Holds, TableIndex, EntryOr0, Broken, IsTablePointer, PageNumber, TableAt, WalkFrom, LevelOf, WalkIs;
  }

  /** A walk from a root table told by the entries that RAM holds: the last one, or a broken one on the way. */
  ghost predicate FollowsPath(w: Walk, ram: Ram, root: int, va: int) {
    var ppn := root / 0x1000;
    && (forall p :: LeadsDown(ram, ppn, va, p) ==> w == Ending(p.last))
    && (w.NoLeaf? || (w.Leaf? && w.level == 0) ==> exists p :: LeadsDown(ram, ppn, va, p))
    && (w == Invalid <==> exists p :: BreaksOff(ram, ppn, va, p))
  }

  lemma WalkFollowsPath(ram: Ram, root: int, va: int)
    requires root % PAGE == 0
    ensures FollowsPath(WalkFrom(false, ram, root, va, 2), ram, root, va)
  {
    var ppn := root / PAGE;
    assert TableAt(ppn) == root;
    WalkByPath(ram, ppn, va);
    forall p ensures LeadsDown(ram, ppn, va, p) ==> p == PathOf(ram, ppn, va)
      ensures BreaksOff(ram, ppn, va, p) ==> BreaksOff(ram, ppn, va, PathOf(ram, ppn, va))
    {
      OnlyPath(ram, ppn, va, p);
    }
    hide LeadsDown, BreaksOff, PathOf, WalkFrom, IsTablePointer, TableAt;
  }

  /** Bits 63 to 39 are all 0 or all 1. */
  predicate HighBitsAgree(va: Word) { va / 0x80_0000_0000 == 0 || va / 0x80_0000_0000 == 0x1FF_FFFF }

  /** What the walker finds for an address, by the bytes of the entries. */
  lemma LookUpByPath(ram: Ram, ppn: nat, va: Word, pa: int, pte: int)
    ensures LookUp(ram, AddressSpace(true, ppn), va) == Found(pa, pte) <==>
      && HighBitsAgree(va)
      && (exists p :: LeadsDown(ram, ppn, va, p) && p.last == pte)
      && pa == PageNumber(pte) * 0x1000 + va % 0x1000
    ensures LookUp(ram, AddressSpace(true, ppn), va) == Unmapped <==>
      !HighBitsAgree(va) || exists p :: BreaksOff(ram, ppn, va, p)
  {
    WalkByPath(ram, ppn, va);
    forall p ensures LeadsDown(ram, ppn, va, p) ==> p == PathOf(ram, ppn, va)
      ensures BreaksOff(ram, ppn, va, p) ==> BreaksOff(ram, ppn, va, PathOf(ram, ppn, va))
    {
      OnlyPath(ram, ppn, va, p);
    }
    assert HighBitsAgree(va) == SignExtended39(va);
    hide LeadsDown, BreaksOff, PathOf, WalkFrom, HighBitsAgree, SignExtended39;
  }

  /** The bit of an entry that an access needs: R is bit 1, W bit 2 and X bit 3. */
  function PermissionBit(access: Access): int {
    match access case Fetch => 8 case Load => 2 case Store => 4
  }

  predicate AllowsAt(last: int, access: Access, va: Word, pa: int) {
    (last / PermissionBit(access)) % 2 == 1 && pa == PageNumber(last) * 0x1000 + va % 0x1000
  }

  /** Three entries, each at its place in RAM byte by byte, lead to a RAM address and allow the access. */
  ghost predicate GrantedByPath(ram: Ram, ppn: nat, va: Word, access: Access, pa: int) {
    && HighBitsAgree(va) && 0x8000_0000 <= pa < 0x8100_0000
    && (exists p :: LeadsDown(ram, ppn, va, p) && AllowsAt(p.last, access, va, pa))
  }

  /** The emulator grants exactly the RAM addresses that such entries lead to. */
  lemma GrantsByPath(ram: Ram, ppn: nat, va: Word, access: Access, pa: int)
    ensures Grants(ram, AddressSpace(true, ppn), va, access) == Some(pa) <==> GrantedByPath(ram, ppn, va, access, pa)
  {
    var found := LookUp(ram, AddressSpace(true, ppn), va);
    LookUpByPath(ram, ppn, va, pa, PathOf(ram, ppn, va).last);
    forall p ensures LeadsDown(ram, ppn, va, p) ==> p == PathOf(ram, ppn, va) { OnlyPath(ram, ppn, va, p); }
    if found.Found? { LookUpByPath(ram, ppn, va, found.pa, found.pte); }
    hide LookUp, LeadsDown, BreaksOff, PathOf, HighBitsAgree;
  }
}
