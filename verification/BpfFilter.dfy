/**
 * The seccomp filter on the instruction pointer: a classic-BPF program, an interpreter for it, and
 * the proof that the program decides a 64-bit range with 32-bit comparisons.
 */
module BpfFilter {
  import opened Words
  import opened Memory

  const TWO_32: int := 0x1_0000_0000

  // ---- struct sock_filter and its memory image ----

  type Half = h: int | 0 <= h < 0x1_0000
  type Word32 = w: int | 0 <= w < 0x1_0000_0000

  datatype SockFilter = SockFilter(code: Half, jt: Byte, jf: Byte, k: Word32)

  const FILTER_SIZE := 8

  function Image(i: SockFilter): (bytes: seq<Byte>)
    ensures |bytes| == FILTER_SIZE
  {
    [i.code % 256, i.code / 256, i.jt, i.jf,
     i.k % 256, (i.k / 256) % 256, (i.k / 0x1_0000) % 256, i.k / 0x100_0000]
  }

  function ProgramImage(program: seq<SockFilter>): (bytes: seq<Byte>)
    ensures |bytes| == FILTER_SIZE * |program|
  {
    if program == [] then [] else Image(program[0]) + ProgramImage(program[1..])
  }

  function Load32(bytes: seq<Byte>, at: int): Word32
    requires 0 <= at && at + 4 <= |bytes|
  {
    (bytes[at] as int) + 0x100 * (bytes[at + 1] as int)
    + 0x1_0000 * (bytes[at + 2] as int) + 0x100_0000 * (bytes[at + 3] as int)
  }

  /** The instruction the kernel reads from the first eight bytes. */
  function Instruction(bytes: seq<Byte>): SockFilter
    requires |bytes| >= FILTER_SIZE
  {
    SockFilter((bytes[0] as int) + 0x100 * (bytes[1] as int), bytes[2], bytes[3], Load32(bytes, 4))
  }

  /** The program of n instructions the kernel reads from memory. */
  function ReadProgram(bytes: seq<Byte>, n: nat): (program: seq<SockFilter>)
    requires |bytes| >= FILTER_SIZE * n
    ensures |program| == n
  {
    if n == 0 then [] else [Instruction(bytes)] + ReadProgram(bytes[FILTER_SIZE..], n - 1)
  }

  lemma WordOfBytes(k: Word32)
    ensures k == k % 256 + 0x100 * ((k / 256) % 256) + 0x1_0000 * ((k / 0x1_0000) % 256) + 0x100_0000 * (k / 0x100_0000)
    ensures 0 <= k / 0x100_0000 < 256
  {
    assert k / 0x1_0000 == (k / 256) / 256;
    assert k / 0x100_0000 == (k / 0x1_0000) / 256;
  }

  lemma InstructionOfImage(i: SockFilter, rest: seq<Byte>)
    ensures Instruction(Image(i) + rest) == i
  {
    WordOfBytes(i.k);
  }

  /** The kernel reads back the program that was laid out. */
  lemma {:induction false} ReadsBackProgram(program: seq<SockFilter>, rest: seq<Byte>)
    ensures ReadProgram(ProgramImage(program) + rest, |program|) == program
  {
    if program != [] {
      var bytes := ProgramImage(program) + rest;
      var tail := ProgramImage(program[1..]) + rest;
      assert bytes == Image(program[0]) + tail;
      InstructionOfImage(program[0], tail);
      assert bytes[FILTER_SIZE..] == tail;
      ReadsBackProgram(program[1..], rest);
    }
  }

  // ---- classic BPF on seccomp_data ----

  const BPF_LD_W_ABS := 0x20
  const BPF_JEQ := 0x15
  const BPF_JGT := 0x25
  const BPF_JGE := 0x35
  const BPF_RET_K := 0x06

  const RET_ALLOW := 0x7fff_0000
  const RET_TRAP := 0x0003_0000

  /** struct seccomp_data: nr, arch, instruction_pointer and six arguments. */
  type SeccompData = d: seq<Byte> | |d| == 64 witness seq(64, _ => 0)

  const IP_LOW := 8
  const IP_HIGH := 12

  function InstructionPointer(data: SeccompData): Word {
    Load32(data, IP_LOW) + TWO_32 * Load32(data, IP_HIGH)
  }

  /** Runs a program from an instruction on; None is an invalid access, instruction or jump. */
  function Exec(program: seq<SockFilter>, data: SeccompData, pc: nat, acc: Word32): Option<Word32>
    decreases |program| - pc
  {
    if pc >= |program| then None
    else
      var i := program[pc];
      if i.code == BPF_LD_W_ABS then
        if i.k % 4 == 0 && i.k + 4 <= |data| then Exec(program, data, pc + 1, Load32(data, i.k)) else None
      else if i.code == BPF_JEQ then Exec(program, data, pc + 1 + (if acc == i.k then i.jt else i.jf), acc)
      else if i.code == BPF_JGT then Exec(program, data, pc + 1 + (if acc > i.k then i.jt else i.jf), acc)
      else if i.code == BPF_JGE then Exec(program, data, pc + 1 + (if acc >= i.k then i.jt else i.jf), acc)
      else if i.code == BPF_RET_K then Some(i.k)
      else None
  }

  // ---- the filter ----

  function Statement(code: Half, k: Word32): SockFilter { SockFilter(code, 0, 0, k) }
  function Jump(code: Half, k: Word32, jt: Byte, jf: Byte): SockFilter { SockFilter(code, jt, jf, k) }

  function High(addr: Word): Word32 { addr / TWO_32 }
  function Low(addr: Word): Word32 { addr % TWO_32 }

  function AddrFilter(start: Word, end: Word): (program: seq<SockFilter>)
    ensures |program| == 12
  {
    [Statement(BPF_LD_W_ABS, IP_HIGH),
     Jump(BPF_JEQ, High(start), 0, 2),
     Statement(BPF_LD_W_ABS, IP_LOW),
     Jump(BPF_JGE, Low(start), 1, 7),
     Jump(BPF_JGT, High(start), 0, 6),
     Statement(BPF_LD_W_ABS, IP_HIGH),
     Jump(BPF_JEQ, High(end), 0, 2),
     Statement(BPF_LD_W_ABS, IP_LOW),
     Jump(BPF_JGE, Low(end), 2, 1),
     Jump(BPF_JGT, High(end), 1, 0),
     Statement(BPF_RET_K, RET_ALLOW),
     Statement(BPF_RET_K, RET_TRAP)]
  }

  lemma HalvesCompare(a: Word, b: Word)
    ensures a >= b <==> High(a) > High(b) || (High(a) == High(b) && Low(a) >= Low(b))
  {
  }

  lemma HalvesOfIp(data: SeccompData)
    ensures High(InstructionPointer(data)) == Load32(data, IP_HIGH)
    ensures Low(InstructionPointer(data)) == Load32(data, IP_LOW)
  {
  }

  /** From instruction 5 on the program tests the end of the range. */
  lemma EndTest(start: Word, end: Word, data: SeccompData, acc: Word32)
    ensures Exec(AddrFilter(start, end), data, 5, acc)
      == Some(if InstructionPointer(data) < end then RET_ALLOW else RET_TRAP)
  {
    HalvesOfIp(data);
    HalvesCompare(InstructionPointer(data), end);
    var p := AddrFilter(start, end);
    var low, high := Load32(data, IP_LOW), Load32(data, IP_HIGH);
    assert Exec(p, data, 10, low) == Some(RET_ALLOW) && Exec(p, data, 11, low) == Some(RET_TRAP);
    assert Exec(p, data, 10, high) == Some(RET_ALLOW) && Exec(p, data, 11, high) == Some(RET_TRAP);
    assert Exec(p, data, 8, low) == Exec(p, data, if low >= Low(end) then 11 else 10, low);
    assert Exec(p, data, 9, high) == Exec(p, data, if high > High(end) then 11 else 10, high);
    assert Exec(p, data, 7, high) == Exec(p, data, 8, low);
    assert Exec(p, data, 6, high) == Exec(p, data, if high == High(end) then 7 else 9, high);
  }

  /**
   * The program always returns, and it allows exactly the instruction pointers of the half-open
   * range, as 64-bit numbers; an empty or inverted range allows none.
   */
  lemma FilterIsExact(start: Word, end: Word, data: SeccompData, acc: Word32)
    ensures Exec(AddrFilter(start, end), data, 0, acc)
      == Some(if start <= InstructionPointer(data) < end then RET_ALLOW else RET_TRAP)
  {
    HalvesOfIp(data);
    HalvesCompare(InstructionPointer(data), start);
    var p := AddrFilter(start, end);
    var low, high := Load32(data, IP_LOW), Load32(data, IP_HIGH);
    EndTest(start, end, data, low);
    EndTest(start, end, data, high);
    assert Exec(p, data, 11, low) == Some(RET_TRAP) && Exec(p, data, 11, high) == Some(RET_TRAP);
    assert Exec(p, data, 3, low) == Exec(p, data, if low >= Low(start) then 5 else 11, low);
    assert Exec(p, data, 4, high) == Exec(p, data, if high > High(start) then 5 else 11, high);
    assert Exec(p, data, 2, high) == Exec(p, data, 3, low);
    assert Exec(p, data, 1, high) == Exec(p, data, if high == High(start) then 2 else 4, high);
  }

  // ---- the same on bytes, with the numbers of the Linux headers ----

  /** A little-endian 32-bit number. */
  function Bytes32(k: Word32): seq<Byte> { [k % 256, (k / 0x100) % 256, (k / 0x1_0000) % 256, k / 0x100_0000] }

  /**
   * The twelve instructions as the kernel is given them: ld [12] and ld [8] (20), jeq (15), jge (35) and jgt (25)
   * with the distances of both jumps, and ret (06) of 0x7fff0000 and 0x00030000.
   */
  function FilterRows(start: Word, end: Word): (rows: seq<seq<Byte>>)
    ensures |rows| == 12
  {
    var startHigh, startLow := Bytes32(start / 0x1_0000_0000), Bytes32(start % 0x1_0000_0000);
    var endHigh, endLow := Bytes32(end / 0x1_0000_0000), Bytes32(end % 0x1_0000_0000);
    [[0x20, 0, 0, 0, 12, 0, 0, 0],
     [0x15, 0, 0, 2] + startHigh,
     [0x20, 0, 0, 0, 8, 0, 0, 0],
     [0x35, 0, 1, 7] + startLow,
     [0x25, 0, 0, 6] + startHigh,
     [0x20, 0, 0, 0, 12, 0, 0, 0],
     [0x15, 0, 0, 2] + endHigh,
     [0x20, 0, 0, 0, 8, 0, 0, 0],
     [0x35, 0, 2, 1] + endLow,
     [0x25, 0, 1, 0] + endHigh,
     [0x06, 0, 0, 0, 0, 0, 0xFF, 0x7F],
     [0x06, 0, 0, 0, 0, 0, 3, 0]]
  }

  lemma {:induction false} ImageAt(program: seq<SockFilter>, j: nat)
    requires j < |program|
    ensures ProgramImage(program)[8 * j..8 * j + 8] == Image(program[j])
  {
    if j > 0 {
      ImageAt(program[1..], j - 1);
      assert ProgramImage(program)[8 * j..8 * j + 8] == ProgramImage(program[1..])[8 * (j - 1)..8 * (j - 1) + 8];
    }
    hide Image;
  }

  lemma ImageBytes(i: SockFilter)
    ensures Image(i) == [i.code % 256, i.code / 256, i.jt, i.jf] + Bytes32(i.k)
  {
  }

  lemma ConstantBytes()
    ensures Bytes32(8) == [8, 0, 0, 0] && Bytes32(12) == [12, 0, 0, 0]
    ensures Bytes32(0x7fff_0000) == [0, 0, 0xFF, 0x7F] && Bytes32(0x0003_0000) == [0, 0, 3, 0]
  {
  }

  lemma RowImage(start: Word, end: Word, j: nat)
    requires j < 12
    ensures Image(AddrFilter(start, end)[j]) == FilterRows(start, end)[j]
  {
    ImageBytes(AddrFilter(start, end)[j]);
    ConstantBytes();
    hide Image, Bytes32;
  }

  /** The memory image of the filter, instruction by instruction. */
  lemma FilterImage(start: Word, end: Word, j: nat)
    requires j < 12
    ensures |ProgramImage(AddrFilter(start, end))| == 96
    ensures ProgramImage(AddrFilter(start, end))[8 * j..8 * j + 8] == FilterRows(start, end)[j]
  {
    RowImage(start, end, j);
    ImageAt(AddrFilter(start, end), j);
    hide Image, ProgramImage, AddrFilter, FilterRows;
  }

  lemma LoadsWord(data: SeccompData, ip: Word)
    requires Stores64(data, 8, ip)
    ensures InstructionPointer(data) == ip
  {
    Load64Bytes(data, 8);
    WordIsUnique(data, 8, ip, Load64(data, 8));
    hide Stores64;
  }

  /**
   * For the instruction pointer whose bytes stand at offset 8 of the kernel's seccomp data, the verdict is
   * 0x7fff0000 (allow) inside the range and 0x00030000 (trap) outside.
   */
  lemma VerdictOnBytes(start: Word, end: Word, data: SeccompData, ip: Word)
    requires Stores64(data, 8, ip)
    ensures Exec(AddrFilter(start, end), data, 0, 0) == Some(if start <= ip < end then 0x7fff_0000 else 0x0003_0000)
  {
    LoadsWord(data, ip);
    FilterIsExact(start, end, data, 0);
    hide Exec, AddrFilter, Stores64;
  }

  /** The program laid out and copied byte by byte into the caller's buffer. */
  method GenAddrFilter(start: Word, end: Word, out: array<Byte>) returns (n: nat)
    requires out.Length >= FILTER_SIZE * 12
    modifies out
    ensures n == 12
    ensures ReadProgram(out[..], n) == AddrFilter(start, end)
    ensures forall j :: 0 <= j < 12 ==> out[8 * j..8 * j + 8] == FilterRows(start, end)[j]
    ensures out[FILTER_SIZE * 12..] == old(out[FILTER_SIZE * 12..])
  {
    hide AddrFilter, ProgramImage, Instruction, FilterRows;
    var filt := ProgramImage(AddrFilter(start, end));
    for i := 0 to |filt|
      invariant out[..i] == filt[..i]
      invariant out[|filt|..] == old(out[|filt|..])
    {
      out[i] := filt[i];
    }
    ReadsBackProgram(AddrFilter(start, end), out[|filt|..]);
    assert out[..] == filt + out[|filt|..];
    forall j | 0 <= j < 12 ensures out[8 * j..8 * j + 8] == FilterRows(start, end)[j] {
      FilterImage(start, end, j);
      assert out[8 * j..8 * j + 8] == filt[8 * j..8 * j + 8];
    }
    return |filt| / FILTER_SIZE;
  }
}
