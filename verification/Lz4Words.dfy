// The bit tricks of LZ4_NbCommonBytes and LZ4HC_NbCommonBytes32: counting the bytes at the front
// or at the back of two words that agree.

module Lz4Words {
  import opened Bytes
  import opened BitWords
  import opened Words

  const ONES: bv64 := 0x0101_0101_0101_0101

  /** The portable 64-bit form for little-endian machines; `val` is the XOR of two words. */
  function NbCommonBytes(val: bv64): bv64 {
    (((val ^ (val - 1)) & (ONES - 1)) * ONES) >> 56
  }

  /** The index of the first non-zero byte. */
  function FirstNonZero(a0: bv8, a1: bv8, a2: bv8, a3: bv8, a4: bv8, a5: bv8, a6: bv8, a7: bv8): bv64 {
    if a0 != 0 then 0 else if a1 != 0 then 1 else if a2 != 0 then 2 else if a3 != 0 then 3
    else if a4 != 0 then 4 else if a5 != 0 then 5 else if a6 != 0 then 6 else if a7 != 0 then 7 else 8
  }

  lemma {:induction false} CountsZeroBytes(a0: bv8, a1: bv8, a2: bv8, a3: bv8, a4: bv8, a5: bv8, a6: bv8, a7: bv8)
    requires Join(a0, a1, a2, a3, a4, a5, a6, a7) != 0
    ensures NbCommonBytes(Join(a0, a1, a2, a3, a4, a5, a6, a7)) == FirstNonZero(a0, a1, a2, a3, a4, a5, a6, a7)
  {
  }

  lemma {:induction false} ZeroJoin(a0: bv8, a1: bv8, a2: bv8, a3: bv8, a4: bv8, a5: bv8, a6: bv8, a7: bv8)
    ensures Join(a0, a1, a2, a3, a4, a5, a6, a7) == 0 <==> FirstNonZero(a0, a1, a2, a3, a4, a5, a6, a7) == 8
  {
  }

  /** The number of equal leading bytes, as a number. */
  function Agreeing(s: seq<byte>, t: seq<byte>): (n: nat)
    requires |s| == |t| == 8
    ensures n <= 8 && (n == 8 <==> s == t)
    ensures n < 8 ==> s[n] != t[n]
    ensures forall i :: 0 <= i < n ==> s[i] == t[i]
  {
    if s[0] != t[0] then 0 else if s[1] != t[1] then 1 else if s[2] != t[2] then 2 else if s[3] != t[3] then 3
    else if s[4] != t[4] then 4 else if s[5] != t[5] then 5 else if s[6] != t[6] then 6 else if s[7] != t[7] then 7 else 8
  }

  lemma {:induction false} FirstDifference(s: seq<byte>, t: seq<byte>)
    requires |s| == |t| == 8
    ensures FirstNonZero(Difference(s[0], t[0]), Difference(s[1], t[1]), Difference(s[2], t[2]), Difference(s[3], t[3]),
                         Difference(s[4], t[4]), Difference(s[5], t[5]), Difference(s[6], t[6]), Difference(s[7], t[7]))
      == Agreeing(s, t) as bv64
  {
    hide Difference;
    DifferenceZero(s[0], t[0]); DifferenceZero(s[1], t[1]); DifferenceZero(s[2], t[2]); DifferenceZero(s[3], t[3]);
    DifferenceZero(s[4], t[4]); DifferenceZero(s[5], t[5]); DifferenceZero(s[6], t[6]); DifferenceZero(s[7], t[7]);
  }

  /** LZ4_NbCommonBytes of the XOR of two words is the number of leading bytes that agree in memory. */
  method CommonBytes(s: seq<byte>, t: seq<byte>) returns (same: bool, n: nat)
    requires |s| == |t| == 8
    ensures same <==> s == t
    ensures !same ==> n < 8 && s[n] != t[n] && forall i :: 0 <= i < n ==> s[i] == t[i]
  {
    hide Join, NbCommonBytes, Word, Difference, FirstNonZero;
    XorLoads(s, t);
    FirstDifference(s, t);
    ghost var x0, x1, x2, x3 := Difference(s[0], t[0]), Difference(s[1], t[1]), Difference(s[2], t[2]), Difference(s[3], t[3]);
    ghost var x4, x5, x6, x7 := Difference(s[4], t[4]), Difference(s[5], t[5]), Difference(s[6], t[6]), Difference(s[7], t[7]);
    ZeroJoin(x0, x1, x2, x3, x4, x5, x6, x7);
    var diff := XorWords(Word(s), Word(t));
    same, n := diff == 0, 0;
    if !same {
      CountsZeroBytes(x0, x1, x2, x3, x4, x5, x6, x7);
      n := NbCommonBytes(diff) as nat;
    }
  }

  // ----- agreement from the back -----

  /** LZ4HC_NbCommonBytes32, the portable form for little-endian machines. */
  function NbCommonBytes32(val: bv32): bv32 {
    var v := val >> 8;
    (((((v + 0x00FF_FF00) | 0x00FF_FFFF) + v) | (v + 0x00FF_0000)) >> 24) ^ 3
  }

  function Join32(a0: bv8, a1: bv8, a2: bv8, a3: bv8): bv32 {
    (a0 as bv32) | (a1 as bv32 << 8) | (a2 as bv32 << 16) | (a3 as bv32 << 24)
  }

  /** LZ4_read32. */
  function Word32(s: seq<byte>): bv32
    requires |s| == 4
  {
    Join32(Bits(s[0]), Bits(s[1]), Bits(s[2]), Bits(s[3]))
  }

  function LastNonZero(a0: bv8, a1: bv8, a2: bv8, a3: bv8): bv32 {
    if a3 != 0 then 0 else if a2 != 0 then 1 else if a1 != 0 then 2 else if a0 != 0 then 3 else 4
  }

  lemma {:induction false} CountsZeroBytes32(a0: bv8, a1: bv8, a2: bv8, a3: bv8)
    ensures Join32(a0, a1, a2, a3) == 0 <==> LastNonZero(a0, a1, a2, a3) == 4
    ensures Join32(a0, a1, a2, a3) != 0 ==> NbCommonBytes32(Join32(a0, a1, a2, a3)) == LastNonZero(a0, a1, a2, a3)
  {
  }

  lemma {:induction false} XorJoin32(a0: bv8, a1: bv8, a2: bv8, a3: bv8, b0: bv8, b1: bv8, b2: bv8, b3: bv8)
    ensures Join32(a0, a1, a2, a3) ^ Join32(b0, b1, b2, b3) == Join32(Xor(a0, b0), Xor(a1, b1), Xor(a2, b2), Xor(a3, b3))
  {
  }

  /** The number of equal trailing bytes, as a number. */
  function AgreeingBack(s: seq<byte>, t: seq<byte>): (n: nat)
    requires |s| == |t| == 4
    ensures n <= 4 && (n == 4 <==> s == t)
    ensures n < 4 ==> s[3 - n] != t[3 - n]
    ensures forall i :: 4 - n <= i < 4 ==> s[i] == t[i]
  {
    if s[3] != t[3] then 0 else if s[2] != t[2] then 1 else if s[1] != t[1] then 2 else if s[0] != t[0] then 3 else 4
  }

  lemma {:induction false} LastDifference(s: seq<byte>, t: seq<byte>)
    requires |s| == |t| == 4
    ensures LastNonZero(Difference(s[0], t[0]), Difference(s[1], t[1]), Difference(s[2], t[2]), Difference(s[3], t[3]))
      == AgreeingBack(s, t) as bv32
  {
    hide Difference;
    DifferenceZero(s[0], t[0]); DifferenceZero(s[1], t[1]); DifferenceZero(s[2], t[2]); DifferenceZero(s[3], t[3]);
  }

  lemma {:induction false} XorWords32(s: seq<byte>, t: seq<byte>)
    requires |s| == |t| == 4
    ensures Word32(s) ^ Word32(t)
      == Join32(Difference(s[0], t[0]), Difference(s[1], t[1]), Difference(s[2], t[2]), Difference(s[3], t[3]))
  {
    hide Join32, Bits, Xor;
    XorJoin32(Bits(s[0]), Bits(s[1]), Bits(s[2]), Bits(s[3]), Bits(t[0]), Bits(t[1]), Bits(t[2]), Bits(t[3]));
  }

  /** LZ4HC_NbCommonBytes32 of the XOR of two words is the number of trailing bytes that agree in memory. */
  method CommonBytesBack(s: seq<byte>, t: seq<byte>) returns (same: bool, n: nat)
    requires |s| == |t| == 4
    ensures same <==> s == t
    ensures !same ==> n < 4 && s[3 - n] != t[3 - n] && forall i :: 4 - n <= i < 4 ==> s[i] == t[i]
  {
    hide Join32, NbCommonBytes32, Word32, Difference, LastNonZero;
    XorWords32(s, t);
    LastDifference(s, t);
    CountsZeroBytes32(Difference(s[0], t[0]), Difference(s[1], t[1]), Difference(s[2], t[2]), Difference(s[3], t[3]));
    var diff := Word32(s) ^ Word32(t);
    same, n := diff == 0, 0;
    if !same {
      n := NbCommonBytes32(diff) as nat;
    }
  }
}
