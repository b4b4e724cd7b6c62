// The bit transpose with movemask of blosc/bitshuffle-sse2.c and blosc/bitshuffle-avx2.c: the top bits of all bytes
// of a register, then a shift of its 16-bit words by one, eight times.

module BitshuffleMasks {
  import opened Bytes
  import opened Words
  import opened BitMatrix
  import opened Registers

  // ----- movemask -----

  /** _mm_movemask_epi8: bit `i` of the result is the top bit of byte `i`. */
  function MoveMask(x: Reg): nat {
    if x == [] then 0 else (if Digit(x[0], 7) then 1 else 0) + 2 * MoveMask(x[1..])
  }

  /** Byte `c` of a number stored in little-endian order. */
  function StoredPart(v: nat, c: nat): byte {
    if c == 0 then v % 0x100 else StoredPart(v / 0x100, c - 1)
  }

  lemma {:induction false} MaskStep(x: Reg)
    requires x != []
    ensures MoveMask(x) == (if Digit(x[0], 7) then 1 else 0) + 2 * MoveMask(x[1..])
  {
  }

  /** The first eight bits of a mask and the rest. */
  lemma {:induction false} MaskEight(x: Reg)
    requires |x| >= 8
    ensures MoveMask(x) == Gather(x[..8], 7) + 0x100 * MoveMask(x[8..])
  {
    hide Digit, MoveMask;
    MaskStep(x);
    MaskStep(x[1..]);
    assert x[1..][1..] == x[2..];
    MaskStep(x[2..]);
    assert x[2..][1..] == x[3..];
    MaskStep(x[3..]);
    assert x[3..][1..] == x[4..];
    MaskStep(x[4..]);
    assert x[4..][1..] == x[5..];
    MaskStep(x[5..]);
    assert x[5..][1..] == x[6..];
    MaskStep(x[6..]);
    assert x[6..][1..] == x[7..];
    MaskStep(x[7..]);
    assert x[7..][1..] == x[8..];
  }

  lemma {:induction false} SplitOff(v: nat, low: byte, high: nat)
    requires v == low + 0x100 * high
    ensures v % 0x100 == low && v / 0x100 == high
  {
  }

  /** Each byte of the stored mask gathers the top bits of eight bytes of the register. */
  lemma {:induction false} MaskGathers(x: Reg, c: nat)
    requires 8 * c + 8 <= |x|
    ensures StoredPart(MoveMask(x), c) == Gather(x[8 * c..8 * c + 8], 7)
    decreases c
  {
    hide MoveMask, Gather;
    MaskEight(x);
    SplitOff(MoveMask(x), Gather(x[..8], 7), MoveMask(x[8..]));
    if c > 0 {
      MaskGathers(x[8..], c - 1);
      assert x[8..][8 * (c - 1)..8 * (c - 1) + 8] == x[8 * c..8 * c + 8];
    } else {
      assert x[8 * c..8 * c + 8] == x[..8];
    }
  }

  // ----- shifts of words -----

  /** Byte `i` after _mm_slli_epi16 by one: within a word the top bit of the low byte moves up, the rest falls off. */
  function ShiftedByte(x: Reg, i: nat): byte
    requires i < |x|
  {
    if i % 2 == 0 then Doubled(x[i], 0) else Doubled(x[i], Top(x[i - 1]))
  }

  function Top(x: byte): bit {
    x / 0x80
  }

  function Doubled(x: byte, carry: bit): byte {
    (2 * x + carry) % 0x100
  }

  function ShiftWords(x: Reg): (r: Reg)
    ensures |r| == |x| && forall i :: 0 <= i < |x| ==> r[i] == ShiftedByte(x, i)
  {
    seq(|x|, i requires 0 <= i < |x| => ShiftedByte(x, i))
  }

  /** Two bytes as a number. */
  function WordOf(low: byte, high: byte): nat {
    low + 0x100 * high
  }

  /** ShiftWords shifts the 16-bit numbers that pairs of bytes hold. */
  lemma {:induction false} ShiftsWords(x: Reg, i: nat)
    requires i % 2 == 0 && i + 1 < |x|
    ensures WordOf(ShiftWords(x)[i], ShiftWords(x)[i + 1]) == 2 * WordOf(x[i], x[i + 1]) % 0x1_0000
  {
    hide Doubled, Top, WordOf;
    DoubledWord(x[i], x[i + 1]);
  }

  lemma {:induction false} DoubledIs(x: byte, carry: bit)
    ensures 2 * x + carry == Doubled(x, carry) + 0x100 * Top(x)
  {
    if x < 0x80 {
    } else {
    }
  }

  lemma {:induction false} DoubledWord(low: byte, high: byte)
    ensures WordOf(Doubled(low, 0), Doubled(high, Top(low))) == 2 * WordOf(low, high) % 0x1_0000
  {
    hide Doubled, Top;
    DoubledIs(low, 0);
    DoubledIs(high, Top(low));
    WordRest(WordOf(Doubled(low, 0), Doubled(high, Top(low))), Top(high));
  }

  lemma {:induction false} WordRest(v: nat, top: bit)
    requires v < 0x1_0000
    ensures (v + 0x1_0000 * top) % 0x1_0000 == v
  {
  }

  /** A byte is made of its digits. */
  lemma {:induction false} OctetOf(x: byte)
    ensures x == Octet(Digit(x, 0), Digit(x, 1), Digit(x, 2), Digit(x, 3), Digit(x, 4), Digit(x, 5), Digit(x, 6), Digit(x, 7))
  {
    hide Octet, Digit, Limit;
    var d := [Digit(x, 0), Digit(x, 1), Digit(x, 2), Digit(x, 3), Digit(x, 4), Digit(x, 5), Digit(x, 6), Digit(x, 7)];
    var y := Octet(d[0], d[1], d[2], d[3], d[4], d[5], d[6], d[7]);
    forall i | 0 <= i < 8 ensures Digit(y, i) == Digit(x, i) {
      OctetDigit(d, i);
    }
    ByteLimit();
    SameDigits(x, y, 8);
  }

  lemma {:induction false} DoubledOctet(d0: bool, d1: bool, d2: bool, d3: bool, d4: bool, d5: bool, d6: bool, d7: bool, carry: bit)
    ensures Doubled(Octet(d0, d1, d2, d3, d4, d5, d6, d7), carry) == Octet(carry == 1, d0, d1, d2, d3, d4, d5, d6)
  {
    hide Octet;
    OctetTop(d0, d1, d2, d3, d4, d5, d6, d7);
    OctetUp(carry == 1, d0, d1, d2, d3, d4, d5, d6);
  }

  lemma {:induction false} OctetTop(d0: bool, d1: bool, d2: bool, d3: bool, d4: bool, d5: bool, d6: bool, d7: bool)
    ensures Octet(d0, d1, d2, d3, d4, d5, d6, d7) == Octet(d0, d1, d2, d3, d4, d5, d6, false) + (if d7 then 0x80 else 0)
    ensures Octet(d0, d1, d2, d3, d4, d5, d6, false) < 0x80
  {
  }

  lemma {:induction false} OctetUp(c: bool, d0: bool, d1: bool, d2: bool, d3: bool, d4: bool, d5: bool, d6: bool)
    ensures Octet(c, d0, d1, d2, d3, d4, d5, d6) == 2 * Octet(d0, d1, d2, d3, d4, d5, d6, false) + (if c then 1 else 0)
  {
  }

  /** A doubled byte has every digit one place higher, whatever comes in below. */
  lemma {:induction false} DoubledDigit(x: byte, carry: bit, i: nat)
    requires i < 7
    ensures Digit(Doubled(x, carry), i + 1) == Digit(x, i)
  {
    hide Octet, Digit, Doubled;
    OctetOf(x);
    DoubledOctet(Digit(x, 0), Digit(x, 1), Digit(x, 2), Digit(x, 3), Digit(x, 4), Digit(x, 5), Digit(x, 6), Digit(x, 7), carry);
    OctetDigit([carry == 1, Digit(x, 0), Digit(x, 1), Digit(x, 2), Digit(x, 3), Digit(x, 4), Digit(x, 5), Digit(x, 6)], i + 1);
  }

  /** After `k` shifts every byte still has its lowest 8 - k digits, `k` places higher. */
  ghost predicate Risen(now: Reg, was: Reg, k: nat) {
    |now| == |was| && forall i: nat, d: nat :: i < |now| && d + k < 8 ==> DigitRisen(now, was, k, i, d)
  }

  ghost predicate DigitRisen(now: Reg, was: Reg, k: nat, i: nat, d: nat)
    requires i < |now| && i < |was|
  {
    Digit(now[i], d + k) == Digit(was[i], d)
  }

  lemma {:induction false} RisenNext(now: Reg, was: Reg, k: nat)
    requires Risen(now, was, k)
    ensures Risen(ShiftWords(now), was, k + 1)
  {
    hide Digit, Doubled, Top;
    var next, l := ShiftWords(now), k + 1;
    forall i: nat, d: nat | i < |next| && d + l < 8 ensures DigitRisen(next, was, l, i, d) {
      assert DigitRisen(now, was, k, i, d);
      DoubledDigit(now[i], if i % 2 == 0 then 0 else Top(now[i - 1]), d + k);
    }
  }

  /** The mask taken after `k` shifts, stored: byte `c` gathers digit 7 - k of eight bytes. */
  lemma {:induction false} RisenGathers(now: Reg, was: Reg, k: nat, c: nat)
    requires Risen(now, was, k) && k < 8 && 8 * c + 8 <= |was|
    ensures StoredPart(MoveMask(now), c) == Gather(was[8 * c..8 * c + 8], 7 - k)
  {
    hide Digit, MoveMask, StoredPart, Octet;
    MaskGathers(now, c);
    var s, t := now[8 * c..8 * c + 8], was[8 * c..8 * c + 8];
    forall r: nat | r < 8 ensures Digit(s[r], 7) == Digit(t[r], 7 - k) {
      assert DigitRisen(now, was, k, 8 * c + r, 7 - k);
    }
    SameGather(s, 7, t, 7 - k);
  }

  lemma {:induction false} SameGather(s: seq<byte>, k: nat, t: seq<byte>, l: nat)
    requires |s| == |t| == 8 && forall r :: 0 <= r < 8 ==> Digit(s[r], k) == Digit(t[r], l)
    ensures Gather(s, k) == Gather(t, l)
  {
    hide Digit, Octet;
  }
}
