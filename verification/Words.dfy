// Bytes and machine words as bits: loads, binary digits and differences.

/** Bit vectors alone, kept apart from integers: words are put together from bytes, least significant first. */
module BitWords {
  function Join(a0: bv8, a1: bv8, a2: bv8, a3: bv8, a4: bv8, a5: bv8, a6: bv8, a7: bv8): bv64 {
    (a0 as bv64) | (a1 as bv64 << 8) | (a2 as bv64 << 16) | (a3 as bv64 << 24)
    | (a4 as bv64 << 32) | (a5 as bv64 << 40) | (a6 as bv64 << 48) | (a7 as bv64 << 56)
  }

  function FromBools(b0: bool, b1: bool, b2: bool, b3: bool, b4: bool, b5: bool, b6: bool, b7: bool): bv8 {
    (if b0 then 1 else 0) | (if b1 then 2 else 0) | (if b2 then 4 else 0) | (if b3 then 8 else 0)
    | (if b4 then 16 else 0) | (if b5 then 32 else 0) | (if b6 then 64 else 0) | (if b7 then 128 else 0)
  }

  // Exclusive or as functions, so that a proof can treat it as unknown.

  function Xor(a: bv8, b: bv8): bv8 {
    a ^ b
  }

  function XorWords(x: bv64, y: bv64): bv64 {
    x ^ y
  }

  lemma {:induction false} XorJoin(a0: bv8, a1: bv8, a2: bv8, a3: bv8, a4: bv8, a5: bv8, a6: bv8, a7: bv8,
                                   b0: bv8, b1: bv8, b2: bv8, b3: bv8, b4: bv8, b5: bv8, b6: bv8, b7: bv8)
    ensures XorWords(Join(a0, a1, a2, a3, a4, a5, a6, a7), Join(b0, b1, b2, b3, b4, b5, b6, b7))
      == Join(Xor(a0, b0), Xor(a1, b1), Xor(a2, b2), Xor(a3, b3), Xor(a4, b4), Xor(a5, b5), Xor(a6, b6), Xor(a7, b7))
  {
  }

  lemma {:induction false} FromBoolsInjective(a0: bool, a1: bool, a2: bool, a3: bool, a4: bool, a5: bool, a6: bool, a7: bool,
                                              b0: bool, b1: bool, b2: bool, b3: bool, b4: bool, b5: bool, b6: bool, b7: bool)
    ensures Xor(FromBools(a0, a1, a2, a3, a4, a5, a6, a7), FromBools(b0, b1, b2, b3, b4, b5, b6, b7)) == 0
      <==> a0 == b0 && a1 == b1 && a2 == b2 && a3 == b3 && a4 == b4 && a5 == b5 && a6 == b6 && a7 == b7
  {
  }
}

module Words {
  import opened Bytes
  import opened BitWords

  predicate Digit(x: nat, i: nat) {
    if i == 0 then x % 2 == 1 else Digit(x / 2, i - 1)
  }

  /** The binary digits of a byte. */
  function Bits(x: byte): bv8 {
    FromBools(Digit(x, 0), Digit(x, 1), Digit(x, 2), Digit(x, 3), Digit(x, 4), Digit(x, 5), Digit(x, 6), Digit(x, 7))
  }

  /** LZ4_read_ARCH: a little-endian 64-bit load. */
  function Word(s: seq<byte>): bv64
    requires |s| == 8
  {
    Join(Bits(s[0]), Bits(s[1]), Bits(s[2]), Bits(s[3]), Bits(s[4]), Bits(s[5]), Bits(s[6]), Bits(s[7]))
  }

  function Limit(k: nat): nat {
    if k == 0 then 1 else 2 * Limit(k - 1)
  }

  /** Numbers with the same digits are equal. */
  lemma {:induction false} SameDigits(x: nat, y: nat, k: nat)
    requires x < Limit(k) && y < Limit(k) && forall i :: 0 <= i < k ==> Digit(x, i) == Digit(y, i)
    ensures x == y
    decreases k
  {
    if k > 0 {
      assert Digit(x, 0) == Digit(y, 0);
      forall i | 0 <= i < k - 1
        ensures Digit(x / 2, i) == Digit(y / 2, i)
      {
        assert Digit(x, i + 1) == Digit(y, i + 1);
      }
      SameDigits(x / 2, y / 2, k - 1);
    }
  }

  lemma {:induction false} ByteLimit()
    ensures Limit(8) == 0x100
  {
    assert Limit(4) == 16;
  }

  /** The difference of two bytes; zero exactly when they are equal. */
  function Difference(x: byte, y: byte): bv8 {
    Xor(Bits(x), Bits(y))
  }

  lemma {:induction false} DifferenceZero(x: byte, y: byte)
    ensures Difference(x, y) == 0 <==> x == y
  {
    hide FromBools, Xor, Digit, Limit;
    FromBoolsInjective(Digit(x, 0), Digit(x, 1), Digit(x, 2), Digit(x, 3), Digit(x, 4), Digit(x, 5), Digit(x, 6), Digit(x, 7),
                       Digit(y, 0), Digit(y, 1), Digit(y, 2), Digit(y, 3), Digit(y, 4), Digit(y, 5), Digit(y, 6), Digit(y, 7));
    if Difference(x, y) == 0 {
      ByteLimit();
      SameDigits(x, y, 8);
    }
  }

  lemma {:induction false} XorLoads(s: seq<byte>, t: seq<byte>)
    requires |s| == |t| == 8
    ensures BitWords.XorWords(Word(s), Word(t)) == Join(Difference(s[0], t[0]), Difference(s[1], t[1]), Difference(s[2], t[2]), Difference(s[3], t[3]),
                                      Difference(s[4], t[4]), Difference(s[5], t[5]), Difference(s[6], t[6]), Difference(s[7], t[7]))
  {
    hide Join, Bits, Xor, BitWords.XorWords;
    XorJoin(Bits(s[0]), Bits(s[1]), Bits(s[2]), Bits(s[3]), Bits(s[4]), Bits(s[5]), Bits(s[6]), Bits(s[7]),
            Bits(t[0]), Bits(t[1]), Bits(t[2]), Bits(t[3]), Bits(t[4]), Bits(t[5]), Bits(t[6]), Bits(t[7]));
  }
}
