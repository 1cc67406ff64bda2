/** The character rules of the Kermit download once more, with the masks and shifts of the C code. */
module KermitBits {
  import opened KermitCodec

  lemma HighBits(b: bv8)
    ensures (b >> 6) as int == b as int / 64
  {
  }

  lemma LowBits(b: bv8)
    ensures (b & 0x3F) as int == b as int % 64
  {
  }

  lemma FoldedBits(b: bv8)
    ensures (b + ((b >> 6) & 3)) & 0x3F == ((b & 0x3F) + (b >> 6)) & 0x3F && (b & 0x3F) <= 63 && (b >> 6) <= 3
  {
  }

  lemma SumBits(x: bv8, y: bv8)
    requires x <= 63 && y <= 3
    ensures (x + y) as int == x as int + y as int
  {
  }

  lemma FoldedSum(v: int)
    requires 0 <= v < 256
    ensures Check6(v) == (v % 64 + v / 64) % 64
  {
  }

  lemma Check6OfByte(b: bv8)
    ensures Check6(b as int) == ((b + ((b >> 6) & 3)) & 0x3F) as int
  {
    HighBits(b);
    LowBits(b);
    FoldedBits(b);
    SumBits(b & 0x3F, b >> 6);
    LowBits((b & 0x3F) + (b >> 6));
    FoldedSum(b as int);
  }

  /** The block check folds the two high bits of the low byte of the sum into the other six. */
  lemma Check6Bits(total: int, b: bv8)
    requires b as int == total % 256
    ensures Check6(total) == ((b + ((b >> 6) & 3)) & 0x3F) as int
  {
    Check6Mod256(total);
    Check6OfByte(b);
  }

  lemma KTransBits(b: bv8)
    ensures KTrans(b as int) ==
            (if b & 0x60 == 0x40 then b & !0x40 else if b & 0x7F == 0x3F then b | 0x40 else b) as int
  {
  }

  lemma IsControlBits(b: bv8)
    ensures IsControl(b as int) <==> b & 0xE0 == 0
  {
  }
}
