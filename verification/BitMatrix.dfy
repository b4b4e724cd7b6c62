// The 8 by 8 bit transpose of bitshuffle-generic.h, and its meaning on bytes.

module BitMatrix {
  import opened Bytes
  import opened BitWords
  import opened Words

  /** TRANS_BIT_8X8: masked swaps of single bits, pairs and fours across the diagonal. */
  function TransBit8x8(x: bv64): bv64 {
    var t := (x ^ (x >> 7)) & 0x00AA_00AA_00AA_00AA;
    var y := x ^ t ^ (t << 7);
    var u := (y ^ (y >> 14)) & 0x0000_CCCC_0000_CCCC;
    var z := y ^ u ^ (u << 14);
    var v := (z ^ (z >> 28)) & 0x0000_0000_F0F0_F0F0;
    z ^ v ^ (v << 28)
  }

  /** Bit `r` of byte `k` of the result is bit `k` of byte `r`, for all 64 pairs. */
  lemma {:induction false} TransposesBits(x: bv64)
    ensures (TransBit8x8(x) >> 0) & 1 != 0 <==> x & 0x0000_0000_0000_0001 != 0
    ensures (TransBit8x8(x) >> 0) & 2 != 0 <==> x & 0x0000_0000_0000_0100 != 0
    ensures (TransBit8x8(x) >> 0) & 4 != 0 <==> x & 0x0000_0000_0001_0000 != 0
    ensures (TransBit8x8(x) >> 0) & 8 != 0 <==> x & 0x0000_0000_0100_0000 != 0
    ensures (TransBit8x8(x) >> 0) & 16 != 0 <==> x & 0x0000_0001_0000_0000 != 0
    ensures (TransBit8x8(x) >> 0) & 32 != 0 <==> x & 0x0000_0100_0000_0000 != 0
    ensures (TransBit8x8(x) >> 0) & 64 != 0 <==> x & 0x0001_0000_0000_0000 != 0
    ensures (TransBit8x8(x) >> 0) & 128 != 0 <==> x & 0x0100_0000_0000_0000 != 0
    ensures (TransBit8x8(x) >> 8) & 1 != 0 <==> x & 0x0000_0000_0000_0002 != 0
    ensures (TransBit8x8(x) >> 8) & 2 != 0 <==> x & 0x0000_0000_0000_0200 != 0
    ensures (TransBit8x8(x) >> 8) & 4 != 0 <==> x & 0x0000_0000_0002_0000 != 0
    ensures (TransBit8x8(x) >> 8) & 8 != 0 <==> x & 0x0000_0000_0200_0000 != 0
    ensures (TransBit8x8(x) >> 8) & 16 != 0 <==> x & 0x0000_0002_0000_0000 != 0
    ensures (TransBit8x8(x) >> 8) & 32 != 0 <==> x & 0x0000_0200_0000_0000 != 0
    ensures (TransBit8x8(x) >> 8) & 64 != 0 <==> x & 0x0002_0000_0000_0000 != 0
    ensures (TransBit8x8(x) >> 8) & 128 != 0 <==> x & 0x0200_0000_0000_0000 != 0
    ensures (TransBit8x8(x) >> 16) & 1 != 0 <==> x & 0x0000_0000_0000_0004 != 0
    ensures (TransBit8x8(x) >> 16) & 2 != 0 <==> x & 0x0000_0000_0000_0400 != 0
    ensures (TransBit8x8(x) >> 16) & 4 != 0 <==> x & 0x0000_0000_0004_0000 != 0
    ensures (TransBit8x8(x) >> 16) & 8 != 0 <==> x & 0x0000_0000_0400_0000 != 0
    ensures (TransBit8x8(x) >> 16) & 16 != 0 <==> x & 0x0000_0004_0000_0000 != 0
    ensures (TransBit8x8(x) >> 16) & 32 != 0 <==> x & 0x0000_0400_0000_0000 != 0
    ensures (TransBit8x8(x) >> 16) & 64 != 0 <==> x & 0x0004_0000_0000_0000 != 0
    ensures (TransBit8x8(x) >> 16) & 128 != 0 <==> x & 0x0400_0000_0000_0000 != 0
    ensures (TransBit8x8(x) >> 24) & 1 != 0 <==> x & 0x0000_0000_0000_0008 != 0
    ensures (TransBit8x8(x) >> 24) & 2 != 0 <==> x & 0x0000_0000_0000_0800 != 0
    ensures (TransBit8x8(x) >> 24) & 4 != 0 <==> x & 0x0000_0000_0008_0000 != 0
    ensures (TransBit8x8(x) >> 24) & 8 != 0 <==> x & 0x0000_0000_0800_0000 != 0
    ensures (TransBit8x8(x) >> 24) & 16 != 0 <==> x & 0x0000_0008_0000_0000 != 0
    ensures (TransBit8x8(x) >> 24) & 32 != 0 <==> x & 0x0000_0800_0000_0000 != 0
    ensures (TransBit8x8(x) >> 24) & 64 != 0 <==> x & 0x0008_0000_0000_0000 != 0
    ensures (TransBit8x8(x) >> 24) & 128 != 0 <==> x & 0x0800_0000_0000_0000 != 0
    ensures (TransBit8x8(x) >> 32) & 1 != 0 <==> x & 0x0000_0000_0000_0010 != 0
    ensures (TransBit8x8(x) >> 32) & 2 != 0 <==> x & 0x0000_0000_0000_1000 != 0
    ensures (TransBit8x8(x) >> 32) & 4 != 0 <==> x & 0x0000_0000_0010_0000 != 0
    ensures (TransBit8x8(x) >> 32) & 8 != 0 <==> x & 0x0000_0000_1000_0000 != 0
    ensures (TransBit8x8(x) >> 32) & 16 != 0 <==> x & 0x0000_0010_0000_0000 != 0
    ensures (TransBit8x8(x) >> 32) & 32 != 0 <==> x & 0x0000_1000_0000_0000 != 0
    ensures (TransBit8x8(x) >> 32) & 64 != 0 <==> x & 0x0010_0000_0000_0000 != 0
    ensures (TransBit8x8(x) >> 32) & 128 != 0 <==> x & 0x1000_0000_0000_0000 != 0
    ensures (TransBit8x8(x) >> 40) & 1 != 0 <==> x & 0x0000_0000_0000_0020 != 0
    ensures (TransBit8x8(x) >> 40) & 2 != 0 <==> x & 0x0000_0000_0000_2000 != 0
    ensures (TransBit8x8(x) >> 40) & 4 != 0 <==> x & 0x0000_0000_0020_0000 != 0
    ensures (TransBit8x8(x) >> 40) & 8 != 0 <==> x & 0x0000_0000_2000_0000 != 0
    ensures (TransBit8x8(x) >> 40) & 16 != 0 <==> x & 0x0000_0020_0000_0000 != 0
    ensures (TransBit8x8(x) >> 40) & 32 != 0 <==> x & 0x0000_2000_0000_0000 != 0
    ensures (TransBit8x8(x) >> 40) & 64 != 0 <==> x & 0x0020_0000_0000_0000 != 0
    ensures (TransBit8x8(x) >> 40) & 128 != 0 <==> x & 0x2000_0000_0000_0000 != 0
    ensures (TransBit8x8(x) >> 48) & 1 != 0 <==> x & 0x0000_0000_0000_0040 != 0
    ensures (TransBit8x8(x) >> 48) & 2 != 0 <==> x & 0x0000_0000_0000_4000 != 0
    ensures (TransBit8x8(x) >> 48) & 4 != 0 <==> x & 0x0000_0000_0040_0000 != 0
    ensures (TransBit8x8(x) >> 48) & 8 != 0 <==> x & 0x0000_0000_4000_0000 != 0
    ensures (TransBit8x8(x) >> 48) & 16 != 0 <==> x & 0x0000_0040_0000_0000 != 0
    ensures (TransBit8x8(x) >> 48) & 32 != 0 <==> x & 0x0000_4000_0000_0000 != 0
    ensures (TransBit8x8(x) >> 48) & 64 != 0 <==> x & 0x0040_0000_0000_0000 != 0
    ensures (TransBit8x8(x) >> 48) & 128 != 0 <==> x & 0x4000_0000_0000_0000 != 0
    ensures (TransBit8x8(x) >> 56) & 1 != 0 <==> x & 0x0000_0000_0000_0080 != 0
    ensures (TransBit8x8(x) >> 56) & 2 != 0 <==> x & 0x0000_0000_0000_8000 != 0
    ensures (TransBit8x8(x) >> 56) & 4 != 0 <==> x & 0x0000_0000_0080_0000 != 0
    ensures (TransBit8x8(x) >> 56) & 8 != 0 <==> x & 0x0000_0000_8000_0000 != 0
    ensures (TransBit8x8(x) >> 56) & 16 != 0 <==> x & 0x0000_0080_0000_0000 != 0
    ensures (TransBit8x8(x) >> 56) & 32 != 0 <==> x & 0x0000_8000_0000_0000 != 0
    ensures (TransBit8x8(x) >> 56) & 64 != 0 <==> x & 0x0080_0000_0000_0000 != 0
    ensures (TransBit8x8(x) >> 56) & 128 != 0 <==> x & 0x8000_0000_0000_0000 != 0
  {
  }

  /** Where the bits of the bytes are in a word. */
  lemma {:induction false} BitsInWord(a0: bv8, a1: bv8, a2: bv8, a3: bv8, a4: bv8, a5: bv8, a6: bv8, a7: bv8)
    ensures Join(a0, a1, a2, a3, a4, a5, a6, a7) & 0x0000_0000_0000_0001 != 0 <==> a0 & 1 != 0
    ensures Join(a0, a1, a2, a3, a4, a5, a6, a7) & 0x0000_0000_0000_0100 != 0 <==> a1 & 1 != 0
    ensures Join(a0, a1, a2, a3, a4, a5, a6, a7) & 0x0000_0000_0001_0000 != 0 <==> a2 & 1 != 0
    ensures Join(a0, a1, a2, a3, a4, a5, a6, a7) & 0x0000_0000_0100_0000 != 0 <==> a3 & 1 != 0
    ensures Join(a0, a1, a2, a3, a4, a5, a6, a7) & 0x0000_0001_0000_0000 != 0 <==> a4 & 1 != 0
    ensures Join(a0, a1, a2, a3, a4, a5, a6, a7) & 0x0000_0100_0000_0000 != 0 <==> a5 & 1 != 0
    ensures Join(a0, a1, a2, a3, a4, a5, a6, a7) & 0x0001_0000_0000_0000 != 0 <==> a6 & 1 != 0
    ensures Join(a0, a1, a2, a3, a4, a5, a6, a7) & 0x0100_0000_0000_0000 != 0 <==> a7 & 1 != 0
    ensures Join(a0, a1, a2, a3, a4, a5, a6, a7) & 0x0000_0000_0000_0002 != 0 <==> a0 & 2 != 0
    ensures Join(a0, a1, a2, a3, a4, a5, a6, a7) & 0x0000_0000_0000_0200 != 0 <==> a1 & 2 != 0
    ensures Join(a0, a1, a2, a3, a4, a5, a6, a7) & 0x0000_0000_0002_0000 != 0 <==> a2 & 2 != 0
    ensures Join(a0, a1, a2, a3, a4, a5, a6, a7) & 0x0000_0000_0200_0000 != 0 <==> a3 & 2 != 0
    ensures Join(a0, a1, a2, a3, a4, a5, a6, a7) & 0x0000_0002_0000_0000 != 0 <==> a4 & 2 != 0
    ensures Join(a0, a1, a2, a3, a4, a5, a6, a7) & 0x0000_0200_0000_0000 != 0 <==> a5 & 2 != 0
    ensures Join(a0, a1, a2, a3, a4, a5, a6, a7) & 0x0002_0000_0000_0000 != 0 <==> a6 & 2 != 0
    ensures Join(a0, a1, a2, a3, a4, a5, a6, a7) & 0x0200_0000_0000_0000 != 0 <==> a7 & 2 != 0
    ensures Join(a0, a1, a2, a3, a4, a5, a6, a7) & 0x0000_0000_0000_0004 != 0 <==> a0 & 4 != 0
    ensures Join(a0, a1, a2, a3, a4, a5, a6, a7) & 0x0000_0000_0000_0400 != 0 <==> a1 & 4 != 0
    ensures Join(a0, a1, a2, a3, a4, a5, a6, a7) & 0x0000_0000_0004_0000 != 0 <==> a2 & 4 != 0
    ensures Join(a0, a1, a2, a3, a4, a5, a6, a7) & 0x0000_0000_0400_0000 != 0 <==> a3 & 4 != 0
    ensures Join(a0, a1, a2, a3, a4, a5, a6, a7) & 0x0000_0004_0000_0000 != 0 <==> a4 & 4 != 0
    ensures Join(a0, a1, a2, a3, a4, a5, a6, a7) & 0x0000_0400_0000_0000 != 0 <==> a5 & 4 != 0
    ensures Join(a0, a1, a2, a3, a4, a5, a6, a7) & 0x0004_0000_0000_0000 != 0 <==> a6 & 4 != 0
    ensures Join(a0, a1, a2, a3, a4, a5, a6, a7) & 0x0400_0000_0000_0000 != 0 <==> a7 & 4 != 0
    ensures Join(a0, a1, a2, a3, a4, a5, a6, a7) & 0x0000_0000_0000_0008 != 0 <==> a0 & 8 != 0
    ensures Join(a0, a1, a2, a3, a4, a5, a6, a7) & 0x0000_0000_0000_0800 != 0 <==> a1 & 8 != 0
    ensures Join(a0, a1, a2, a3, a4, a5, a6, a7) & 0x0000_0000_0008_0000 != 0 <==> a2 & 8 != 0
    ensures Join(a0, a1, a2, a3, a4, a5, a6, a7) & 0x0000_0000_0800_0000 != 0 <==> a3 & 8 != 0
    ensures Join(a0, a1, a2, a3, a4, a5, a6, a7) & 0x0000_0008_0000_0000 != 0 <==> a4 & 8 != 0
    ensures Join(a0, a1, a2, a3, a4, a5, a6, a7) & 0x0000_0800_0000_0000 != 0 <==> a5 & 8 != 0
    ensures Join(a0, a1, a2, a3, a4, a5, a6, a7) & 0x0008_0000_0000_0000 != 0 <==> a6 & 8 != 0
    ensures Join(a0, a1, a2, a3, a4, a5, a6, a7) & 0x0800_0000_0000_0000 != 0 <==> a7 & 8 != 0
    ensures Join(a0, a1, a2, a3, a4, a5, a6, a7) & 0x0000_0000_0000_0010 != 0 <==> a0 & 16 != 0
    ensures Join(a0, a1, a2, a3, a4, a5, a6, a7) & 0x0000_0000_0000_1000 != 0 <==> a1 & 16 != 0
    ensures Join(a0, a1, a2, a3, a4, a5, a6, a7) & 0x0000_0000_0010_0000 != 0 <==> a2 & 16 != 0
    ensures Join(a0, a1, a2, a3, a4, a5, a6, a7) & 0x0000_0000_1000_0000 != 0 <==> a3 & 16 != 0
    ensures Join(a0, a1, a2, a3, a4, a5, a6, a7) & 0x0000_0010_0000_0000 != 0 <==> a4 & 16 != 0
    ensures Join(a0, a1, a2, a3, a4, a5, a6, a7) & 0x0000_1000_0000_0000 != 0 <==> a5 & 16 != 0
    ensures Join(a0, a1, a2, a3, a4, a5, a6, a7) & 0x0010_0000_0000_0000 != 0 <==> a6 & 16 != 0
    ensures Join(a0, a1, a2, a3, a4, a5, a6, a7) & 0x1000_0000_0000_0000 != 0 <==> a7 & 16 != 0
    ensures Join(a0, a1, a2, a3, a4, a5, a6, a7) & 0x0000_0000_0000_0020 != 0 <==> a0 & 32 != 0
    ensures Join(a0, a1, a2, a3, a4, a5, a6, a7) & 0x0000_0000_0000_2000 != 0 <==> a1 & 32 != 0
    ensures Join(a0, a1, a2, a3, a4, a5, a6, a7) & 0x0000_0000_0020_0000 != 0 <==> a2 & 32 != 0
    ensures Join(a0, a1, a2, a3, a4, a5, a6, a7) & 0x0000_0000_2000_0000 != 0 <==> a3 & 32 != 0
    ensures Join(a0, a1, a2, a3, a4, a5, a6, a7) & 0x0000_0020_0000_0000 != 0 <==> a4 & 32 != 0
    ensures Join(a0, a1, a2, a3, a4, a5, a6, a7) & 0x0000_2000_0000_0000 != 0 <==> a5 & 32 != 0
    ensures Join(a0, a1, a2, a3, a4, a5, a6, a7) & 0x0020_0000_0000_0000 != 0 <==> a6 & 32 != 0
    ensures Join(a0, a1, a2, a3, a4, a5, a6, a7) & 0x2000_0000_0000_0000 != 0 <==> a7 & 32 != 0
    ensures Join(a0, a1, a2, a3, a4, a5, a6, a7) & 0x0000_0000_0000_0040 != 0 <==> a0 & 64 != 0
    ensures Join(a0, a1, a2, a3, a4, a5, a6, a7) & 0x0000_0000_0000_4000 != 0 <==> a1 & 64 != 0
    ensures Join(a0, a1, a2, a3, a4, a5, a6, a7) & 0x0000_0000_0040_0000 != 0 <==> a2 & 64 != 0
    ensures Join(a0, a1, a2, a3, a4, a5, a6, a7) & 0x0000_0000_4000_0000 != 0 <==> a3 & 64 != 0
    ensures Join(a0, a1, a2, a3, a4, a5, a6, a7) & 0x0000_0040_0000_0000 != 0 <==> a4 & 64 != 0
    ensures Join(a0, a1, a2, a3, a4, a5, a6, a7) & 0x0000_4000_0000_0000 != 0 <==> a5 & 64 != 0
    ensures Join(a0, a1, a2, a3, a4, a5, a6, a7) & 0x0040_0000_0000_0000 != 0 <==> a6 & 64 != 0
    ensures Join(a0, a1, a2, a3, a4, a5, a6, a7) & 0x4000_0000_0000_0000 != 0 <==> a7 & 64 != 0
    ensures Join(a0, a1, a2, a3, a4, a5, a6, a7) & 0x0000_0000_0000_0080 != 0 <==> a0 & 128 != 0
    ensures Join(a0, a1, a2, a3, a4, a5, a6, a7) & 0x0000_0000_0000_8000 != 0 <==> a1 & 128 != 0
    ensures Join(a0, a1, a2, a3, a4, a5, a6, a7) & 0x0000_0000_0080_0000 != 0 <==> a2 & 128 != 0
    ensures Join(a0, a1, a2, a3, a4, a5, a6, a7) & 0x0000_0000_8000_0000 != 0 <==> a3 & 128 != 0
    ensures Join(a0, a1, a2, a3, a4, a5, a6, a7) & 0x0000_0080_0000_0000 != 0 <==> a4 & 128 != 0
    ensures Join(a0, a1, a2, a3, a4, a5, a6, a7) & 0x0000_8000_0000_0000 != 0 <==> a5 & 128 != 0
    ensures Join(a0, a1, a2, a3, a4, a5, a6, a7) & 0x0080_0000_0000_0000 != 0 <==> a6 & 128 != 0
    ensures Join(a0, a1, a2, a3, a4, a5, a6, a7) & 0x8000_0000_0000_0000 != 0 <==> a7 & 128 != 0
  {
  }

  lemma {:induction false} BitsInByte(a0: bool, a1: bool, a2: bool, a3: bool, a4: bool, a5: bool, a6: bool, a7: bool)
    ensures FromBools(a0, a1, a2, a3, a4, a5, a6, a7) & 1 != 0 <==> a0
    ensures FromBools(a0, a1, a2, a3, a4, a5, a6, a7) & 2 != 0 <==> a1
    ensures FromBools(a0, a1, a2, a3, a4, a5, a6, a7) & 4 != 0 <==> a2
    ensures FromBools(a0, a1, a2, a3, a4, a5, a6, a7) & 8 != 0 <==> a3
    ensures FromBools(a0, a1, a2, a3, a4, a5, a6, a7) & 16 != 0 <==> a4
    ensures FromBools(a0, a1, a2, a3, a4, a5, a6, a7) & 32 != 0 <==> a5
    ensures FromBools(a0, a1, a2, a3, a4, a5, a6, a7) & 64 != 0 <==> a6
    ensures FromBools(a0, a1, a2, a3, a4, a5, a6, a7) & 128 != 0 <==> a7
  {
  }

  /** The byte with the given digits, lowest first. */
  function Octet(d0: bool, d1: bool, d2: bool, d3: bool, d4: bool, d5: bool, d6: bool, d7: bool): byte {
    (if d0 then 1 else 0) + (if d1 then 2 else 0) + (if d2 then 4 else 0) + (if d3 then 8 else 0)
    + (if d4 then 16 else 0) + (if d5 then 32 else 0) + (if d6 then 64 else 0) + (if d7 then 128 else 0)
  }

  /** Digit `k` of eight bytes, gathered into one byte. */
  function Gather(s: seq<byte>, k: nat): byte
    requires |s| == 8
  {
    Octet(Digit(s[0], k), Digit(s[1], k), Digit(s[2], k), Digit(s[3], k), Digit(s[4], k), Digit(s[5], k), Digit(s[6], k), Digit(s[7], k))
  }

  /** A store of the lowest byte of a word. */
  function StoredByte(x: bv64): byte {
    Octet(x & 1 != 0, x & 2 != 0, x & 4 != 0, x & 8 != 0, x & 16 != 0, x & 32 != 0, x & 64 != 0, x & 128 != 0)
  }

  lemma {:induction false} DigitsInByte(x: byte)
    ensures Bits(x) & 1 != 0 <==> Digit(x, 0)
    ensures Bits(x) & 2 != 0 <==> Digit(x, 1)
    ensures Bits(x) & 4 != 0 <==> Digit(x, 2)
    ensures Bits(x) & 8 != 0 <==> Digit(x, 3)
    ensures Bits(x) & 16 != 0 <==> Digit(x, 4)
    ensures Bits(x) & 32 != 0 <==> Digit(x, 5)
    ensures Bits(x) & 64 != 0 <==> Digit(x, 6)
    ensures Bits(x) & 128 != 0 <==> Digit(x, 7)
  {
    hide FromBools, Digit;
    BitsInByte(Digit(x, 0), Digit(x, 1), Digit(x, 2), Digit(x, 3), Digit(x, 4), Digit(x, 5), Digit(x, 6), Digit(x, 7));
  }

  /** The digits of eight bytes in the word loaded from them. */
  lemma {:induction false} DigitsInWord(s: seq<byte>)
    requires |s| == 8
    ensures Word(s) & 0x0000_0000_0000_0001 != 0 <==> Digit(s[0], 0)
    ensures Word(s) & 0x0000_0000_0000_0100 != 0 <==> Digit(s[1], 0)
    ensures Word(s) & 0x0000_0000_0001_0000 != 0 <==> Digit(s[2], 0)
    ensures Word(s) & 0x0000_0000_0100_0000 != 0 <==> Digit(s[3], 0)
    ensures Word(s) & 0x0000_0001_0000_0000 != 0 <==> Digit(s[4], 0)
    ensures Word(s) & 0x0000_0100_0000_0000 != 0 <==> Digit(s[5], 0)
    ensures Word(s) & 0x0001_0000_0000_0000 != 0 <==> Digit(s[6], 0)
    ensures Word(s) & 0x0100_0000_0000_0000 != 0 <==> Digit(s[7], 0)
    ensures Word(s) & 0x0000_0000_0000_0002 != 0 <==> Digit(s[0], 1)
    ensures Word(s) & 0x0000_0000_0000_0200 != 0 <==> Digit(s[1], 1)
    ensures Word(s) & 0x0000_0000_0002_0000 != 0 <==> Digit(s[2], 1)
    ensures Word(s) & 0x0000_0000_0200_0000 != 0 <==> Digit(s[3], 1)
    ensures Word(s) & 0x0000_0002_0000_0000 != 0 <==> Digit(s[4], 1)
    ensures Word(s) & 0x0000_0200_0000_0000 != 0 <==> Digit(s[5], 1)
    ensures Word(s) & 0x0002_0000_0000_0000 != 0 <==> Digit(s[6], 1)
    ensures Word(s) & 0x0200_0000_0000_0000 != 0 <==> Digit(s[7], 1)
    ensures Word(s) & 0x0000_0000_0000_0004 != 0 <==> Digit(s[0], 2)
    ensures Word(s) & 0x0000_0000_0000_0400 != 0 <==> Digit(s[1], 2)
    ensures Word(s) & 0x0000_0000_0004_0000 != 0 <==> Digit(s[2], 2)
    ensures Word(s) & 0x0000_0000_0400_0000 != 0 <==> Digit(s[3], 2)
    ensures Word(s) & 0x0000_0004_0000_0000 != 0 <==> Digit(s[4], 2)
    ensures Word(s) & 0x0000_0400_0000_0000 != 0 <==> Digit(s[5], 2)
    ensures Word(s) & 0x0004_0000_0000_0000 != 0 <==> Digit(s[6], 2)
    ensures Word(s) & 0x0400_0000_0000_0000 != 0 <==> Digit(s[7], 2)
    ensures Word(s) & 0x0000_0000_0000_0008 != 0 <==> Digit(s[0], 3)
    ensures Word(s) & 0x0000_0000_0000_0800 != 0 <==> Digit(s[1], 3)
    ensures Word(s) & 0x0000_0000_0008_0000 != 0 <==> Digit(s[2], 3)
    ensures Word(s) & 0x0000_0000_0800_0000 != 0 <==> Digit(s[3], 3)
    ensures Word(s) & 0x0000_0008_0000_0000 != 0 <==> Digit(s[4], 3)
    ensures Word(s) & 0x0000_0800_0000_0000 != 0 <==> Digit(s[5], 3)
    ensures Word(s) & 0x0008_0000_0000_0000 != 0 <==> Digit(s[6], 3)
    ensures Word(s) & 0x0800_0000_0000_0000 != 0 <==> Digit(s[7], 3)
    ensures Word(s) & 0x0000_0000_0000_0010 != 0 <==> Digit(s[0], 4)
    ensures Word(s) & 0x0000_0000_0000_1000 != 0 <==> Digit(s[1], 4)
    ensures Word(s) & 0x0000_0000_0010_0000 != 0 <==> Digit(s[2], 4)
    ensures Word(s) & 0x0000_0000_1000_0000 != 0 <==> Digit(s[3], 4)
    ensures Word(s) & 0x0000_0010_0000_0000 != 0 <==> Digit(s[4], 4)
    ensures Word(s) & 0x0000_1000_0000_0000 != 0 <==> Digit(s[5], 4)
    ensures Word(s) & 0x0010_0000_0000_0000 != 0 <==> Digit(s[6], 4)
    ensures Word(s) & 0x1000_0000_0000_0000 != 0 <==> Digit(s[7], 4)
    ensures Word(s) & 0x0000_0000_0000_0020 != 0 <==> Digit(s[0], 5)
    ensures Word(s) & 0x0000_0000_0000_2000 != 0 <==> Digit(s[1], 5)
    ensures Word(s) & 0x0000_0000_0020_0000 != 0 <==> Digit(s[2], 5)
    ensures Word(s) & 0x0000_0000_2000_0000 != 0 <==> Digit(s[3], 5)
    ensures Word(s) & 0x0000_0020_0000_0000 != 0 <==> Digit(s[4], 5)
    ensures Word(s) & 0x0000_2000_0000_0000 != 0 <==> Digit(s[5], 5)
    ensures Word(s) & 0x0020_0000_0000_0000 != 0 <==> Digit(s[6], 5)
    ensures Word(s) & 0x2000_0000_0000_0000 != 0 <==> Digit(s[7], 5)
    ensures Word(s) & 0x0000_0000_0000_0040 != 0 <==> Digit(s[0], 6)
    ensures Word(s) & 0x0000_0000_0000_4000 != 0 <==> Digit(s[1], 6)
    ensures Word(s) & 0x0000_0000_0040_0000 != 0 <==> Digit(s[2], 6)
    ensures Word(s) & 0x0000_0000_4000_0000 != 0 <==> Digit(s[3], 6)
    ensures Word(s) & 0x0000_0040_0000_0000 != 0 <==> Digit(s[4], 6)
    ensures Word(s) & 0x0000_4000_0000_0000 != 0 <==> Digit(s[5], 6)
    ensures Word(s) & 0x0040_0000_0000_0000 != 0 <==> Digit(s[6], 6)
    ensures Word(s) & 0x4000_0000_0000_0000 != 0 <==> Digit(s[7], 6)
    ensures Word(s) & 0x0000_0000_0000_0080 != 0 <==> Digit(s[0], 7)
    ensures Word(s) & 0x0000_0000_0000_8000 != 0 <==> Digit(s[1], 7)
    ensures Word(s) & 0x0000_0000_0080_0000 != 0 <==> Digit(s[2], 7)
    ensures Word(s) & 0x0000_0000_8000_0000 != 0 <==> Digit(s[3], 7)
    ensures Word(s) & 0x0000_0080_0000_0000 != 0 <==> Digit(s[4], 7)
    ensures Word(s) & 0x0000_8000_0000_0000 != 0 <==> Digit(s[5], 7)
    ensures Word(s) & 0x0080_0000_0000_0000 != 0 <==> Digit(s[6], 7)
    ensures Word(s) & 0x8000_0000_0000_0000 != 0 <==> Digit(s[7], 7)
  {
    hide Join, Bits, Digit;
    BitsInWord(Bits(s[0]), Bits(s[1]), Bits(s[2]), Bits(s[3]), Bits(s[4]), Bits(s[5]), Bits(s[6]), Bits(s[7]));
    DigitsInByte(s[0]); DigitsInByte(s[1]); DigitsInByte(s[2]); DigitsInByte(s[3]);
    DigitsInByte(s[4]); DigitsInByte(s[5]); DigitsInByte(s[6]); DigitsInByte(s[7]);
  }

  /** Byte `k` of the transposed word gathers digit `k` of the bytes loaded. */
  lemma {:induction false} GathersDigits(s: seq<byte>)
    requires |s| == 8
    ensures StoredByte(TransBit8x8(Word(s)) >> 0) == Gather(s, 0)
    ensures StoredByte(TransBit8x8(Word(s)) >> 8) == Gather(s, 1)
    ensures StoredByte(TransBit8x8(Word(s)) >> 16) == Gather(s, 2)
    ensures StoredByte(TransBit8x8(Word(s)) >> 24) == Gather(s, 3)
    ensures StoredByte(TransBit8x8(Word(s)) >> 32) == Gather(s, 4)
    ensures StoredByte(TransBit8x8(Word(s)) >> 40) == Gather(s, 5)
    ensures StoredByte(TransBit8x8(Word(s)) >> 48) == Gather(s, 6)
    ensures StoredByte(TransBit8x8(Word(s)) >> 56) == Gather(s, 7)
  {
    hide TransBit8x8, Word, Digit, Octet;
    TransposesBits(Word(s));
    DigitsInWord(s);
  }

  function ShiftByte(x: bv64): bv64 {
    x >> 8
  }

  /** A word after `k` shifts by one byte. */
  function Shifted(x: bv64, k: nat): bv64
    requires k < 8
  {
    if k == 0 then x >> 0
    else if k == 1 then x >> 8
    else if k == 2 then x >> 16
    else if k == 3 then x >> 24
    else if k == 4 then x >> 32
    else if k == 5 then x >> 40
    else if k == 6 then x >> 48 else x >> 56
  }

  lemma {:induction false} ShiftsAdd(x: bv64)
    ensures x >> 0 == x
    ensures ShiftByte(x >> 0) == x >> 8
    ensures ShiftByte(x >> 8) == x >> 16
    ensures ShiftByte(x >> 16) == x >> 24
    ensures ShiftByte(x >> 24) == x >> 32
    ensures ShiftByte(x >> 32) == x >> 40
    ensures ShiftByte(x >> 40) == x >> 48
    ensures ShiftByte(x >> 48) == x >> 56
  {
  }

  /** The loop that stores a word byte by byte shifts it by eight every time. */
  lemma {:induction false} ShiftedNext(x: bv64, k: nat)
    requires k < 7
    ensures Shifted(x, 0) == x && ShiftByte(Shifted(x, k)) == Shifted(x, k + 1)
  {
    hide ShiftByte;
    ShiftsAdd(x);
  }

  /** The bytes stored are the gathered digits. */
  lemma {:induction false} StoresDigits(s: seq<byte>, k: nat)
    requires |s| == 8 && k < 8
    ensures StoredByte(Shifted(TransBit8x8(Word(s)), k)) == Gather(s, k)
  {
    hide TransBit8x8, Word, StoredByte, Gather;
    GathersDigits(s);
  }

  // ----- gathering is an involution -----

  lemma {:induction false} HalfOctet(d0: bool, d1: bool, d2: bool, d3: bool, d4: bool, d5: bool, d6: bool, d7: bool)
    ensures var x := Octet(d0, d1, d2, d3, d4, d5, d6, d7);
      Digit(x, 0) == d0 && x / 2 == Octet(d1, d2, d3, d4, d5, d6, d7, false)
  {
  }

  lemma {:induction false} DigitAbove(x: nat, i: nat)
    requires i > 0
    ensures Digit(x, i) == Digit(x / 2, i - 1)
  {
  }

  /** An octet has the digits it was made from. */
  lemma {:induction false} OctetDigit(d: seq<bool>, i: nat)
    requires |d| == 8 && i < 8
    ensures Digit(Octet(d[0], d[1], d[2], d[3], d[4], d[5], d[6], d[7]), i) == d[i]
    decreases i
  {
    hide Octet, Digit;
    HalfOctet(d[0], d[1], d[2], d[3], d[4], d[5], d[6], d[7]);
    if i > 0 {
      DigitAbove(Octet(d[0], d[1], d[2], d[3], d[4], d[5], d[6], d[7]), i);
      OctetDigit([d[1], d[2], d[3], d[4], d[5], d[6], d[7], false], i - 1);
    }
  }

  lemma {:induction false} GatherDigit(s: seq<byte>, k: nat, r: nat)
    requires |s| == 8 && r < 8
    ensures Digit(Gather(s, k), r) == Digit(s[r], k)
  {
    hide Octet, Digit;
    OctetDigit([Digit(s[0], k), Digit(s[1], k), Digit(s[2], k), Digit(s[3], k), Digit(s[4], k), Digit(s[5], k), Digit(s[6], k), Digit(s[7], k)], r);
  }

  /** Gathering the gathered digits gives the bytes back. */
  lemma {:induction false} GatherTwice(s: seq<byte>, t: seq<byte>, k: nat)
    requires |s| == |t| == 8 && k < 8 && forall r :: 0 <= r < 8 ==> t[r] == Gather(s, r)
    ensures Gather(t, k) == s[k]
  {
    hide Octet, Digit, Gather, Limit;
    forall i | 0 <= i < 8
      ensures Digit(Gather(t, k), i) == Digit(s[k], i)
    {
      GatherDigit(t, k, i);
      GatherDigit(s, i, k);
    }
    ByteLimit();
    SameDigits(Gather(t, k), s[k], 8);
  }
}
