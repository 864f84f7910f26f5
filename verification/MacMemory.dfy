/** The emulated Mac's memory: bytes at addresses, 16- and 32-bit accesses big-endian. */
module MacMemory {
  import opened Bytes

  /** Addresses that were never written read as 0. */
  type Memory = map<int, Byte>

  function Read8(m: Memory, a: int): (v: Byte) {
    if a in m then m[a] else 0
  }

  function Read16(m: Memory, a: int): (v: Word16) {
    Read8(m, a) * 0x100 + Read8(m, a + 1)
  }

  function Read32(m: Memory, a: int): (v: Word32) {
    Read16(m, a) * 0x1_0000 + Read16(m, a + 2)
  }

  function Write16(m: Memory, a: int, v: Word16): (m': Memory) {
    m[a := v / 0x100][a + 1 := v % 0x100]
  }

  function Write32(m: Memory, a: int, v: Word32): (m': Memory) {
    Write16(Write16(m, a, v / 0x1_0000), a + 2, v % 0x1_0000)
  }

  lemma ReadBack16(m: Memory, a: int, v: Word16)
    ensures Read16(Write16(m, a, v), a) == v
  {
  }

  lemma ReadBack32(m: Memory, a: int, v: Word32)
    ensures Read32(Write32(m, a, v), a) == v
  {
    var m1 := Write16(m, a, v / 0x1_0000);
    ReadBack16(m, a, v / 0x1_0000);
    ReadBack16(m1, a + 2, v % 0x1_0000);
  }

  /** A 32-bit write leaves every 16- and 32-bit cell alone that it does not overlap. */
  lemma Untouched(m: Memory, a: int, v: Word32, b: int)
    ensures b + 4 <= a || a + 4 <= b ==> Read32(Write32(m, a, v), b) == Read32(m, b)
    ensures b + 2 <= a || a + 4 <= b ==> Read16(Write32(m, a, v), b) == Read16(m, b)
  {
  }

  /** The 4-byte cells at `a` and `b` do not overlap. */
  predicate CellsApart(a: int, b: int) {
    b + 4 <= a || a + 4 <= b
  }

  /** Everything a 32-bit write does to the 32-bit cells that are either its own or apart from it. */
  lemma WriteCell(m: Memory, a: int, v: Word32)
    ensures Read32(Write32(m, a, v), a) == v
    ensures forall b {:trigger Read32(Write32(m, a, v), b)} ::
      CellsApart(a, b) ==> Read32(Write32(m, a, v), b) == Read32(m, b)
    ensures forall b {:trigger Read16(Write32(m, a, v), b)} ::
      b + 2 <= a || a + 4 <= b ==> Read16(Write32(m, a, v), b) == Read16(m, b)
  {
    hide Read32, Write32, Read16;
    ReadBack32(m, a, v);
    forall b | CellsApart(a, b)
      ensures Read32(Write32(m, a, v), b) == Read32(m, b)
    {
      Untouched(m, a, v, b);
    }
    forall b | b + 2 <= a || a + 4 <= b
      ensures Read16(Write32(m, a, v), b) == Read16(m, b)
    {
      Untouched(m, a, v, b);
    }
  }
}
