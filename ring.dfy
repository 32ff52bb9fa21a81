/** The result ring in the 2 MiB hugepage: the 32-byte line that the
    hardware writes for request sequence number `m_seq` is found at
    `(m_seq & (DEPTH - 1)) << 5` bytes from the start of the page. */
module Ring {
  import opened Bits

  /** `DEPTH`: the number of entries of the ring. */
  const Depth: nat := 1024

  /** The size of one result line in bytes (the shift by 5). */
  const LineSize: nat := 32

  /** `HP_SIZE`, `2UL << 20`: the size of the hugepage in bytes. */
  function HugePageSize(): (size: nat)
    ensures size == 0x20_0000
  {
    Pow2Add(10, 10);
    assert Pow2(10) == 1024;
    Shl(2, 20)
  }

  /** `(m_seq & (DEPTH - 1)) << 5` for a `uint64_t` sequence number. */
  function SlotOffset(mSeq: U64): (off: nat)
    ensures off == (mSeq % Depth) * LineSize
    ensures off % LineSize == 0
    ensures off + LineSize <= HugePageSize()
  {
    SlotOffsetBits(mSeq);
    Shl(BitAnd(mSeq, Depth - 1), 5)
  }

  /** The mask keeps the sequence number modulo the ring depth, and the
      shift multiplies it by the line size. */
  lemma SlotOffsetBits(mSeq: nat)
    ensures Shl(BitAnd(mSeq, Depth - 1), 5) == (mSeq % Depth) * LineSize
  {
    assert Pow2(10) == 1024 && Pow2(5) == 32;
    BitAndLowMask(mSeq, 10);
  }

  /** A `uint64_t` sum: `a + b` reduced modulo 2^64. */
  function AddU64(a: U64, b: nat): (r: U64)
    ensures a + b < 0x1_0000_0000_0000_0000 ==> r == a + b
  {
    Pow2Of64();
    Trunc(a + b, 64)
  }

  /** Sequence numbers that are a whole number of ring turns apart, even
      across the wrap-around of the 64-bit counter, share one line. */
  lemma SlotOffsetPeriodic(mSeq: U64, turns: nat)
    ensures SlotOffset(AddU64(mSeq, turns * Depth)) == SlotOffset(mSeq)
  {
    var x := mSeq + turns * Depth;
    WrapKeepsSlot(x);
    ModAddMultiple(mSeq, turns, Depth);
  }

  /** 2^64 is a whole number of ring turns, so the 64-bit wrap-around keeps
      the position in the ring. */
  lemma WrapKeepsSlot(x: nat)
    ensures Trunc(x, 64) % Depth == x % Depth
  {
    TruncIsMod(x, 64);
    Pow2Add(10, 54);
    assert Pow2(10) == Depth by {
      Pow2Add(5, 5);
      assert Pow2(5) == 32;
    }
    ModOfMultiple(x, Depth, Pow2(54));
  }

  /** Fewer than `Depth` consecutive sequence numbers never share a line. */
  lemma SlotOffsetDistinct(a: U64, b: U64)
    requires a < b < a + Depth
    ensures SlotOffset(a) != SlotOffset(b)
  {
    var r := a % Depth + (b - a);
    if r < Depth {
      DivModUnique(b, Depth, a / Depth, r);
    } else {
      DivModUnique(b, Depth, a / Depth + 1, r - Depth);
    }
  }
}
