/** The guest's physical memory: the RAM file shared by the emulator and the guest. */
module Memory {
  const PAGE: int := 4096
  const RAM_START: int := 0x8000_0000
  const RAM_SIZE: int := 0x100_0000

  type Byte = b: int | 0 <= b < 256

  /** The RAM file, byte by byte. */
  type Ram = bytes: seq<Byte> | |bytes| == RAM_SIZE witness seq(RAM_SIZE, _ => 0)

  predicate InRam(pa: int) {
    RAM_START <= pa < RAM_START + RAM_SIZE
  }

  /** The little-endian 64-bit number at a file offset; all eight bytes must lie inside the file. */
  function Load64(ram: seq<Byte>, offset: int): (n: int)
    requires 0 <= offset && offset + 8 <= |ram|
  {
    (ram[offset] as int) + 0x100 * (ram[offset + 1] as int)
    + 0x1_0000 * (ram[offset + 2] as int) + 0x100_0000 * (ram[offset + 3] as int)
    + 0x1_0000_0000 * (ram[offset + 4] as int) + 0x100_0000_0000 * (ram[offset + 5] as int)
    + 0x1_0000_0000_0000 * (ram[offset + 6] as int) + 0x100_0000_0000_0000 * (ram[offset + 7] as int)
  }

  /** Dropping the lowest byte of a number. */
  lemma DropByte(low: int, rest: int)
    requires 0 <= low < 256
    ensures (low + 0x100 * rest) % 256 == low && (low + 0x100 * rest) / 256 == rest
  {
  }

  lemma DropBytes(n: int)
    requires 0 <= n
    ensures n / 0x1_0000 == n / 0x100 / 0x100 && n / 0x100_0000 == n / 0x1_0000 / 0x100
    ensures n / 0x1_0000_0000 == n / 0x100_0000 / 0x100 && n / 0x100_0000_0000 == n / 0x1_0000_0000 / 0x100
    ensures n / 0x1_0000_0000_0000 == n / 0x100_0000_0000 / 0x100
    ensures n / 0x100_0000_0000_0000 == n / 0x1_0000_0000_0000 / 0x100
  {
  }

  /** The 64-bit number whose bytes, from the lowest, stand at an offset and the seven places after it. */
  predicate Stores64(bytes: seq<Byte>, offset: int, n: int)
    requires 0 <= offset && offset + 8 <= |bytes|
  {
    && 0 <= n < 0x1_0000_0000_0000_0000
    && n % 0x100 == bytes[offset] && (n / 0x100) % 0x100 == bytes[offset + 1]
    && (n / 0x1_0000) % 0x100 == bytes[offset + 2] && (n / 0x100_0000) % 0x100 == bytes[offset + 3]
    && (n / 0x1_0000_0000) % 0x100 == bytes[offset + 4] && (n / 0x100_0000_0000) % 0x100 == bytes[offset + 5]
    && (n / 0x1_0000_0000_0000) % 0x100 == bytes[offset + 6] && n / 0x100_0000_0000_0000 == bytes[offset + 7]
  }

  /** Such a number is the sum of its bytes, so there is only one. */
  lemma WordIsUnique(bytes: seq<Byte>, offset: int, n: int, m: int)
    requires 0 <= offset && offset + 8 <= |bytes| && Stores64(bytes, offset, n) && Stores64(bytes, offset, m)
    ensures n == m
  {
    DropBytes(n);
    DropBytes(m);
  }

  /** Loading reads exactly that number. */
  lemma Load64Bytes(ram: seq<Byte>, offset: int)
    requires 0 <= offset && offset + 8 <= |ram|
    ensures Stores64(ram, offset, Load64(ram, offset))
  {
    var n := Load64(ram, offset);
    var n7: int := ram[offset + 7];
    var n6 := ram[offset + 6] as int + 0x100 * n7;
    var n5 := ram[offset + 5] as int + 0x100 * n6;
    var n4 := ram[offset + 4] as int + 0x100 * n5;
    var n3 := ram[offset + 3] as int + 0x100 * n4;
    var n2 := ram[offset + 2] as int + 0x100 * n3;
    var n1 := ram[offset + 1] as int + 0x100 * n2;
    assert n == ram[offset] as int + 0x100 * n1;
    hide Load64;
    DropByte(ram[offset], n1);
    DropByte(ram[offset + 1], n2);
    DropByte(ram[offset + 2], n3);
    DropByte(ram[offset + 3], n4);
    DropByte(ram[offset + 4], n5);
    DropByte(ram[offset + 5], n6);
    DropByte(ram[offset + 6], n7);
    DropBytes(n);
  }
}
