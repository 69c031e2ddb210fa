/**
 * The Linux side: the process's page mappings, and the mmap, munmap, pread and pwrite calls the
 * emulator makes on them. User space ends at 2^38.
 */
module HostVm {
  import opened Words
  import opened Memory

  const USER_END: int := 0x40_0000_0000

  /** A page of the RAM file with its protection, or a page of the emulator's own image and stack. */
  datatype HostPage =
    | RamPage(frame: int, readable: bool, writable: bool, executable: bool)
    | StubPage(id: int)

  /** A RAM page lies inside the RAM file. */
  predicate ValidPage(page: HostPage) {
    page.RamPage? ==> 0 <= page.frame < RAM_SIZE / PAGE
  }

  /** Page number to page; every page number is that of a user page. */
  type HostVm = vm: map<int, HostPage>
    | forall p :: p in vm ==> 0 <= p < USER_END / PAGE && ValidPage(vm[p])
    witness map[]

  /** The part of user space that holds the emulator itself, end excluded. */
  datatype StubRange = StubRange(start: int, end: int)

  predicate IsUser(va: int) { 0 <= va < USER_END }

  function PageOf(va: int): int { va / PAGE }

  // ---- mmap(MAP_FIXED_NOREPLACE) of one page and munmap ----

  /** Fails on an occupied page and on an address outside user space. */
  function MapPage(vm: HostVm, addr: int, page: HostPage): Option<HostVm>
    requires addr % PAGE == 0 && ValidPage(page)
  {
    if !IsUser(addr) || PageOf(addr) in vm then None else Some(vm[PageOf(addr) := page])
  }

  function RoundUp(len: int): int { (len + PAGE - 1) / PAGE * PAGE }

  predicate InRange(p: int, addr: int, end: int) { addr <= p * PAGE < end }

  /** The arguments the kernel accepts: aligned, not empty, and not leaving user space. */
  predicate UnmapAccepts(addr: int, len: int) {
    addr % PAGE == 0 && 0 < len <= USER_END && 0 <= addr <= USER_END - len
  }

  /** A refused call changes nothing. */
  function Unmap(vm: HostVm, addr: int, len: int): HostVm {
    if UnmapAccepts(addr, len) then map p | p in vm && !InRange(p, addr, addr + RoundUp(len)) :: vm[p]
    else vm
  }

  /** A stub range as the loader creates it: page-aligned, and ending inside user space. */
  predicate ValidStub(s: StubRange) {
    s.start % PAGE == 0 && s.end % PAGE == 0 && 0 <= s.start <= s.end <= USER_END
  }

  predicate InStub(s: StubRange, p: int) { InRange(p, s.start, s.end) }

  /** The two munmap calls around the stub; the second length is computed modulo 2^64. */
  function UnmapAround(vm: HostVm, s: StubRange): HostVm {
    Unmap(Unmap(vm, 0, s.start), s.end, (USER_END - s.end) % TWO_64)
  }

  /** With a valid stub range the flush removes every user page outside the stub and none inside. */
  lemma UnmapAroundKeepsExactlyStub(vm: HostVm, s: StubRange)
    requires ValidStub(s)
    ensures UnmapAround(vm, s) == map p | p in vm && InStub(s, p) :: vm[p]
  {
    assert RoundUp(s.start) == s.start;
    assert RoundUp(USER_END - s.end) == USER_END - s.end;
    assert (USER_END - s.end) % TWO_64 == USER_END - s.end;
  }

  // ---- accesses through the mappings ----

  datatype Use = ForRead | ForWrite | ForExecute

  predicate Allows(page: HostPage, use: Use) {
    match use
    case ForRead => page.RamPage? && page.readable
    case ForWrite => page.RamPage? && page.writable
    case ForExecute => page.RamPage? && page.executable
  }

  /** The RAM file offset an access reaches without faulting, if it reaches one. */
  function Reach(vm: HostVm, va: int, use: Use): (o: Option<int>)
    ensures o.Some? ==> 0 <= o.value < RAM_SIZE
  {
    if IsUser(va) && PageOf(va) in vm && Allows(vm[PageOf(va)], use)
    then Some(vm[PageOf(va)].frame * PAGE + va % PAGE)
    else None
  }

  // ---- pread and pwrite of one block between the block file and user memory ----

  const BLOCK_SIZE: int := 512

  type File = seq<Byte>

  /** A negative file offset makes both calls fail without effect. */
  predicate OffsetAccepted(offset: int) { 0 <= offset < 0x8000_0000_0000_0000 }

  /** The RAM file offset behind byte i of a user buffer. */
  function BufferByte(vm: HostVm, buf: int, i: int, use: Use): (o: Option<int>)
    ensures o.Some? ==> 0 <= o.value < RAM_SIZE
  {
    Reach(vm, buf + i, use)
  }

  predicate Mapped(vm: HostVm, buf: int, n: int, use: Use) {
    forall i :: 0 <= i < n ==> BufferByte(vm, buf, i, use).Some?
  }

  /** How many bytes at the front of a buffer are reachable; the kernel copies up to the first fault. */
  function Reachable(vm: HostVm, buf: int, use: Use, limit: nat): (n: nat)
    ensures n <= limit && Mapped(vm, buf, n, use)
    ensures n < limit ==> BufferByte(vm, buf, n, use).None?
  {
    if limit == 0 then 0
    else
      var n := Reachable(vm, buf, use, limit - 1);
      if n == limit - 1 && BufferByte(vm, buf, n, use).Some? then limit else n
  }

  /** What pread can supply: nothing beyond the end of the file. */
  function Available(file: File, offset: int): (n: nat)
    ensures n <= BLOCK_SIZE && (n > 0 ==> 0 <= offset && offset + n <= |file|)
  {
    if !OffsetAccepted(offset) || offset >= |file| then 0
    else if |file| - offset < BLOCK_SIZE then |file| - offset else BLOCK_SIZE
  }

  /** User memory after copying data to the front of a buffer, byte by byte. */
  function CopyOut(ram: Ram, vm: HostVm, buf: int, data: seq<Byte>): Ram
    requires Mapped(vm, buf, |data|, ForWrite)
  {
    if data == [] then ram
    else
      var last := |data| - 1;
      CopyOut(ram, vm, buf, data[..last])[BufferByte(vm, buf, last, ForWrite).value := data[last]]
  }

  /** Copying one more byte. */
  lemma CopyOutStep(ram: Ram, vm: HostVm, buf: int, data: seq<Byte>, i: nat)
    requires i < |data| && Mapped(vm, buf, |data|, ForWrite)
    ensures CopyOut(ram, vm, buf, data[..i + 1])
         == CopyOut(ram, vm, buf, data[..i])[BufferByte(vm, buf, i, ForWrite).value := data[i]]
  {
    assert data[..i + 1][..i] == data[..i];
  }

  /** The first n bytes of a buffer. */
  function CopyIn(ram: Ram, vm: HostVm, buf: int, n: nat): (data: seq<Byte>)
    requires Mapped(vm, buf, n, ForRead)
    ensures |data| == n
  {
    if n == 0 then []
    else CopyIn(ram, vm, buf, n - 1) + [ram[BufferByte(vm, buf, n - 1, ForRead).value]]
  }

  /** pread(BLOCK_FD, buf, 512, offset) */
  function Pread(ram: Ram, vm: HostVm, buf: int, file: File, offset: int): Ram {
    var n := Reachable(vm, buf, ForWrite, Available(file, offset));
    if n == 0 then ram else CopyOut(ram, vm, buf, file[offset..offset + n])
  }

  /** The file with data at an offset; writing past the end fills the gap with zeros. */
  function WriteAt(file: File, offset: int, data: seq<Byte>): File
    requires 0 <= offset
  {
    var padded := if |file| < offset then file + seq(offset - |file|, _ => 0) else file;
    var rest := if offset + |data| < |padded| then padded[offset + |data|..] else [];
    padded[..offset] + data + rest
  }

  /** pwrite(BLOCK_FD, buf, 512, offset) */
  function Pwrite(ram: Ram, vm: HostVm, buf: int, file: File, offset: int): File {
    var n := Reachable(vm, buf, ForRead, BLOCK_SIZE);
    if !OffsetAccepted(offset) || n == 0 then file
    else WriteAt(file, offset, CopyIn(ram, vm, buf, n))
  }
}
