// CRC-32 as zlib's crc32.c computes it: the shift register of section 8 of RFC 1952 byte by byte, the
// braided form that reads N words of W bytes at a time, and the combination of two checksums.

/** The definition, one bit at a time, and what follows from its being linear. */
module CrcRegister {
  import opened Gf2
  import opened Gf2Powers

  const ALL: bv32 := 0xffff_ffff

  function Wide(b: bv8): bv32 {
    b as bv32
  }

  /** One byte goes into the register: it is added and the register is multiplied by x^8. */
  function Feed(c: bv32, b: bv8): bv32 {
    Times(Add(c, Wide(b)), 8)
  }

  /** The register after the bytes of `s`, without conditioning. */
  function Register(c: bv32, s: seq<bv8>): bv32
    decreases |s|
  {
    if s == [] then c else Register(Feed(c, s[0]), s[1..])
  }

  /** The checksum of `s` appended to data with checksum `crc`; that of no data is 0. */
  function Crc(crc: bv32, s: seq<bv8>): bv32 {
    Add(Register(Add(crc, ALL), s), ALL)
  }

  lemma {:induction false} RegisterConcat(c: bv32, s: seq<bv8>, t: seq<bv8>)
    ensures Register(c, s + t) == Register(Register(c, s), t)
    decreases |s|
  {
    hide Feed;
    if s == [] {
      assert s + t == t;
    } else {
      assert (s + t)[1..] == s[1..] + t;
      RegisterConcat(Feed(c, s[0]), s[1..], t);
    }
  }

  lemma {:induction false} RegisterOne(c: bv32, s: seq<bv8>, b: bv8)
    ensures Register(c, s + [b]) == Feed(Register(c, s), b)
  {
    hide Feed;
    RegisterConcat(c, s, [b]);
    assert Register(Feed(Register(c, s), b), []) == Feed(Register(c, s), b);
    assert [b][1..] == [];
  }

  /** What is in the register before the data only adds to what the data make of it. */
  lemma {:induction false} RegisterAdd(c: bv32, d: bv32, s: seq<bv8>)
    ensures Register(Add(c, d), s) == Add(Register(c, s), Times(d, 8 * |s|))
    decreases |s|
  {
    hide Add, Times, Wide;
    if s == [] {
      TimesNone(d);
    } else {
      var e := Add(c, Wide(s[0]));
      AddMiddle(c, d, Wide(s[0]));
      TimesAdd(e, d, 8);
      RegisterAdd(Feed(c, s[0]), Times(d, 8), s[1..]);
      TimesTimes(d, 8, 8 * (|s| - 1));
    }
  }

  lemma {:induction false} TimesNone(d: bv32)
    ensures Times(d, 0) == d
  {
  }

  lemma {:induction false} AddMiddle(a: bv32, b: bv32, c: bv32)
    ensures Add(Add(a, b), c) == Add(Add(a, c), b)
  {
    hide Add;
    AddAssociates(a, b, c);
    AddAssociates(a, c, b);
    AddCommutes(b, c);
  }

  /** The register's content and the data's own contribution. */
  lemma {:induction false} RegisterSplit(c: bv32, s: seq<bv8>)
    ensures Register(c, s) == Add(Times(c, 8 * |s|), Register(0, s))
  {
    hide Add, Times, Register;
    AddCancels(c);
    RegisterAdd(0, c, s);
    AddCommutes(Register(0, s), Times(c, 8 * |s|));
  }

  /** What crc32_combine rests on: the second part's checksum, and the first's moved past it. */
  lemma {:induction false} CrcConcat(crc: bv32, s: seq<bv8>, t: seq<bv8>)
    ensures Crc(crc, s + t) == Crc(Crc(crc, s), t)
    ensures Crc(crc, s + t) == Add(Mul(XPow(8 * |t|), Crc(crc, s)), Crc(0, t))
  {
    hide Add, Times, Register, Mul, XPow;
    var r := Register(Add(crc, ALL), s);
    var a := Add(r, ALL);
    var d := Times(a, 8 * |t|);
    RegisterConcat(Add(crc, ALL), s, t);
    AddAssociates(r, ALL, ALL);
    AddCancels(ALL);
    AddCancels(r);
    RegisterAdd(ALL, a, t);
    AddCommutes(ALL, a);
    AddCommutes(Register(ALL, t), d);
    AddAssociates(d, Register(ALL, t), ALL);
    XPowMul(8 * |t|, a);
  }

  // ----- a byte at a time -----

  function Low(c: bv32): bv32 {
    c & 0xff
  }

  function Shifted(c: bv32): bv32 {
    c >> 8
  }

  lemma {:induction false} RawEmpty(a: bv32)
    requires a >> 24 == 0
    ensures a & 0x8000_0000 == 0 && (a << 1) & 0x8000_0000 == 0 && (a << 2) & 0x8000_0000 == 0
    ensures (a << 3) & 0x8000_0000 == 0 && (a << 4) & 0x8000_0000 == 0 && (a << 5) & 0x8000_0000 == 0
    ensures (a << 6) & 0x8000_0000 == 0 && (a << 7) & 0x8000_0000 == 0
  {
  }

  lemma {:induction false} DropsNothing(a: bv32)
    requires a >> 24 == 0
    ensures !Top(Drop(a, 0)) && !Top(Drop(a, 1)) && !Top(Drop(a, 2)) && !Top(Drop(a, 3))
    ensures !Top(Drop(a, 4)) && !Top(Drop(a, 5)) && !Top(Drop(a, 6)) && !Top(Drop(a, 7))
  {
    hide Drop;
    RawEmpty(a);
    Drops(a);
  }

  lemma {:induction false} TimesDrop(a: bv32, n: nat)
    requires forall k :: 0 <= k < n ==> !Top(Drop(a, k))
    ensures Times(Drop(a, n), n) == a
  {
    hide Top, Double, Xtime, Add;
    if n > 0 {
      var b := Drop(a, n - 1);
      Split(b);
      AddCancels(Xtime(Double(b)));
      TimesDrop(a, n - 1);
      TimesTimes(Double(b), 1, n - 1);
      TimesOnce(Double(b));
    }
  }

  lemma {:induction false} TimesOnce(b: bv32)
    ensures Times(b, 1) == Xtime(b)
  {
    TimesNone(b);
  }

  /** A byte's shift up and x^8 undo each other when nothing is lost. */
  lemma {:induction false} TimesByte(a: bv32)
    requires a >> 24 == 0
    ensures Times(a << 8, 8) == a
  {
    hide Times, Drop, Top;
    DropsNothing(a);
    Drops(a);
    TimesDrop(a, 8);
  }

  lemma {:induction false} RawBytes(c: bv32, d: bv32, x: bv32, h: bv32, l: bv32)
    requires d & 0xff == d && x == c ^ d && h == (c >> 8) << 8 && l == x & 0xff
    ensures x == h ^ l
  {
  }

  lemma {:induction false} RawShort(c: bv32)
    ensures (c >> 8) >> 24 == 0
  {
  }

  lemma {:induction false} RawWide(b: bv8)
    ensures (b as bv32) & 0xff == b as bv32
  {
  }

  function Cleared(c: bv32): bv32 {
    (c >> 8) << 8
  }

  lemma {:induction false} Bytes(c: bv32, b: bv8, x: bv32)
    requires x == Add(c, Wide(b))
    ensures x == Cleared(c) ^ Low(x)
  {
    RawWide(b);
    RawBytes(c, b as bv32, x, Cleared(c), Low(x));
  }

  lemma {:induction false} TimesCleared(c: bv32)
    ensures Times(Cleared(c), 8) == Shifted(c)
  {
    hide Times;
    RawShort(c);
    TimesByte(c >> 8);
  }

  /** The table form: the low byte picks a table entry, the rest moves down. */
  lemma {:induction false} FeedByTable(c: bv32, b: bv8)
    ensures Feed(c, b) == Add(Shifted(c), Times(Low(Add(c, Wide(b))), 8))
  {
    hide Times, Add, Cleared, Low, Shifted, Wide;
    var x := Add(c, Wide(b));
    Bytes(c, b, x);
    AddIs(Cleared(c), Low(x));
    TimesCleared(c);
    TimesAdd(Cleared(c), Low(x), 8);
  }

  // ----- the numbers -----

  /** The register after one bit, in plain arithmetic. */
  predicate OneBit(e: bv32, f: bv32) {
    f == if e & 1 == 1 then (e >> 1) ^ 0xedb8_8320 else e >> 1
  }

  predicate OneByte(a0: bv32, a1: bv32, a2: bv32, a3: bv32, a4: bv32, a5: bv32, a6: bv32, a7: bv32, a8: bv32) {
    OneBit(a0, a1) && OneBit(a1, a2) && OneBit(a2, a3) && OneBit(a3, a4) && OneBit(a4, a5) && OneBit(a5, a6) && OneBit(a6, a7) && OneBit(a7, a8)
  }

  lemma {:induction false} OneBitIs(e: bv32, f: bv32)
    requires OneBit(e, f)
    ensures f == Xtime(e)
  {
  }

  lemma {:induction false} OneByteIs(a0: bv32, a1: bv32, a2: bv32, a3: bv32, a4: bv32, a5: bv32, a6: bv32, a7: bv32, a8: bv32)
    requires OneByte(a0, a1, a2, a3, a4, a5, a6, a7, a8)
    ensures Times(a0, 8) == a8
  {
    hide OneBit, Xtime;
    OneBitIs(a0, a1);
    OneBitIs(a1, a2);
    OneBitIs(a2, a3);
    OneBitIs(a3, a4);
    OneBitIs(a4, a5);
    OneBitIs(a5, a6);
    OneBitIs(a6, a7);
    OneBitIs(a7, a8);
    TimesBit(a0, 0);
    TimesBit(a0, 1);
    TimesBit(a0, 2);
    TimesBit(a0, 3);
    TimesBit(a0, 4);
    TimesBit(a0, 5);
    TimesBit(a0, 6);
    TimesBit(a0, 7);
    TimesNone(a0);
  }

  lemma {:induction false} TimesBit(a: bv32, n: nat)
    ensures Times(a, n + 1) == Xtime(Times(a, n))
  {
    hide Xtime;
  }

  /** A register of ones after 32 bits of nothing. */
  lemma {:induction false} OnesPast()
    ensures Times(ALL, 32) == 0xdebb_20e3
  {
    hide Times;
    OneByteIs(0xffff_ffff, 0x9247_7cdf, 0xa49b_3d4f, 0xbff5_1d87, 0xb242_0de3, 0xb499_85d1, 0xb7f4_41c8, 0x5bfa_20e4, 0x2dfd_1072);
    OneByteIs(0x2dfd_1072, 0x16fe_8839, 0xe6c7_c73c, 0x7363_e39e, 0x39b1_f1cf, 0xf160_7bc7, 0x9508_bec3, 0xa73c_dc41, 0xbe26_ed00);
    OneByteIs(0xbe26_ed00, 0x5f13_7680, 0x2f89_bb40, 0x17c4_dda0, 0x0be2_6ed0, 0x05f1_3768, 0x02f8_9bb4, 0x017c_4dda, 0x00be_26ed);
    OneByteIs(0x00be_26ed, 0xede7_9056, 0x76f3_c82b, 0xd6c1_6735, 0x86d8_30ba, 0x436c_185d, 0xcc0e_8f0e, 0x6607_4787, 0xdebb_20e3);
    TimesTimes(ALL, 8, 8);
    TimesTimes(ALL, 16, 8);
    TimesTimes(ALL, 24, 8);
  }

  lemma {:induction false} OnesOut()
    ensures Add(0xdebb_20e3, ALL) == 0x2144_df1c
  {
  }

  function Lowest(v: bv32): bv8 {
    (v & 0xff) as bv8
  }

  /** The four bytes of a checksum, least significant first, as gzip and zip store it. */
  function FourBytes(v: bv32): (s: seq<bv8>)
    ensures |s| == 4
  {
    [Lowest(v), Lowest(v >> 8), Lowest(v >> 16), Lowest(v >> 24)]
  }

  lemma {:induction false} RawLowest(v: bv32)
    ensures (v ^ (((v & 0xff) as bv8) as bv32)) & 0xff == 0
  {
  }

  /** A register's own low byte moves the rest down. */
  lemma {:induction false} OwnByte(v: bv32)
    ensures Feed(v, Lowest(v)) == Shifted(v)
  {
    hide Times, Feed;
    RawLowest(v);
    FeedByTable(v, Lowest(v));
    TimesZero(8);
    AddCancels(Shifted(v));
  }

  lemma {:induction false} RawShifts(v: bv32)
    ensures (v >> 8) >> 8 == v >> 16 && (v >> 16) >> 8 == v >> 24 && (v >> 24) >> 8 == 0
  {
  }

  /** Fed with its own four bytes the register becomes empty. */
  lemma {:induction false} OwnBytes(v: bv32)
    ensures Register(v, FourBytes(v)) == 0
  {
    hide Feed, Lowest;
    RawShifts(v);
    OwnByte(v);
    OwnByte(v >> 8);
    OwnByte(v >> 16);
    OwnByte(v >> 24);
    var s := FourBytes(v);
    assert s == [s[0]] + ([s[1]] + ([s[2]] + [s[3]]));
    RegisterConcat(v, [s[0]], [s[1]] + ([s[2]] + [s[3]]));
    RegisterConcat(v >> 8, [s[1]], [s[2]] + [s[3]]);
    RegisterConcat(v >> 16, [s[2]], [s[3]]);
    RegisterSingle(v, s[0]);
    RegisterSingle(v >> 8, s[1]);
    RegisterSingle(v >> 16, s[2]);
    RegisterSingle(v >> 24, s[3]);
  }

  lemma {:induction false} RegisterSingle(c: bv32, b: bv8)
    ensures Register(c, [b]) == Feed(c, b)
  {
    hide Feed;
    assert [b][1..] == [];
    assert Register(Feed(c, b), []) == Feed(c, b);
  }

  /** Whatever the data, with their checksum behind them they have this one. */
  lemma {:induction false} Residue(crc: bv32, s: seq<bv8>)
    ensures Crc(crc, s + FourBytes(Crc(crc, s))) == 0x2144_df1c
  {
    hide Add, Times, Register, FourBytes, Mul, XPow;
    var v := Crc(crc, s);
    CrcConcat(crc, s, FourBytes(v));
    RegisterAdd(v, ALL, FourBytes(v));
    OwnBytes(v);
    OnesPast();
    OnesOut();
    AddCancels(Times(ALL, 32));
  }

  lemma {:induction false} FedNext(s: seq<bv8>, t: seq<bv8>, c0: bv32, c: bv32, b: bv8, x: bv32, d: bv32)
    requires t == s + [b] && Register(c0, s) == c && x == c ^ (b as bv32) && Times(x, 8) == d
    ensures Register(c0, t) == d
  {
    hide Times, Register;
    RegisterOne(c0, s, b);
  }

  /** The checksum that the parameters of a CRC are told by: that of the digits 1 to 9. */
  lemma {:induction false} CheckValue()
    ensures Crc(0, [0x31, 0x32, 0x33, 0x34, 0x35, 0x36, 0x37, 0x38, 0x39]) == 0xcbf4_3926
  {
    hide Times, Register;
    CheckRegister();
    CheckOut();
  }

  lemma {:induction false} CheckOut()
    ensures Add(0, ALL) == 0xffff_ffff && Add(0x340b_c6d9, ALL) == 0xcbf4_3926
  {
  }

  lemma {:induction false} CheckRegister()
    ensures Register(0xffff_ffff, [0x31, 0x32, 0x33, 0x34, 0x35, 0x36, 0x37, 0x38, 0x39]) == 0x340b_c6d9
  {
    hide Times, Register, OneByte;
    RegisterNothing(0xffff_ffff);
    CheckBytes();
    FedNext([], [0x31], 0xffff_ffff, 0xffff_ffff, 0x31, 0xffff_ffce, 0x7c23_1048);
    FedNext([0x31], [0x31, 0x32], 0xffff_ffff, 0x7c23_1048, 0x32, 0x7c23_107a, 0xb0ac_bb32);
    FedNext([0x31, 0x32], [0x31, 0x32, 0x33], 0xffff_ffff, 0xb0ac_bb32, 0x33, 0xb0ac_bb01, 0x77b7_9c2d);
    FedNext([0x31, 0x32, 0x33], [0x31, 0x32, 0x33, 0x34], 0xffff_ffff, 0x77b7_9c2d, 0x34, 0x77b7_9c19, 0x641c_1f5c);
    FedNext([0x31, 0x32, 0x33, 0x34], [0x31, 0x32, 0x33, 0x34, 0x35], 0xffff_ffff, 0x641c_1f5c, 0x35, 0x641c_1f69, 0x340a_c5e3);
    FedNext([0x31, 0x32, 0x33, 0x34, 0x35], [0x31, 0x32, 0x33, 0x34, 0x35, 0x36], 0xffff_ffff, 0x340a_c5e3, 0x36, 0x340a_c5d5, 0xf68d_2c9e);
    FedNext([0x31, 0x32, 0x33, 0x34, 0x35, 0x36], [0x31, 0x32, 0x33, 0x34, 0x35, 0x36, 0x37], 0xffff_ffff, 0xf68d_2c9e, 0x37, 0xf68d_2ca9, 0xaffc_9660);
    FedNext([0x31, 0x32, 0x33, 0x34, 0x35, 0x36, 0x37], [0x31, 0x32, 0x33, 0x34, 0x35, 0x36, 0x37, 0x38], 0xffff_ffff, 0xaffc_9660, 0x38, 0xaffc_9658, 0x651f_2550);
    FedNext([0x31, 0x32, 0x33, 0x34, 0x35, 0x36, 0x37, 0x38], [0x31, 0x32, 0x33, 0x34, 0x35, 0x36, 0x37, 0x38, 0x39], 0xffff_ffff, 0x651f_2550, 0x39, 0x651f_2569, 0x340b_c6d9);
  }

  lemma {:induction false} RegisterNothing(c: bv32)
    ensures Register(c, []) == c
  {
  }

  lemma {:induction false} CheckBytes()
    ensures Times(0xffff_ffce, 8) == 0x7c23_1048
    ensures Times(0x7c23_107a, 8) == 0xb0ac_bb32
    ensures Times(0xb0ac_bb01, 8) == 0x77b7_9c2d
    ensures Times(0x77b7_9c19, 8) == 0x641c_1f5c
    ensures Times(0x641c_1f69, 8) == 0x340a_c5e3
    ensures Times(0x340a_c5d5, 8) == 0xf68d_2c9e
    ensures Times(0xf68d_2ca9, 8) == 0xaffc_9660
    ensures Times(0xaffc_9658, 8) == 0x651f_2550
    ensures Times(0x651f_2569, 8) == 0x340b_c6d9
  {
    hide Times;
    OneByteIs(0xffff_ffce, 0x7fff_ffe7, 0xd247_7cd3, 0x849b_3d49, 0xaff5_1d84, 0x57fa_8ec2, 0x2bfd_4761, 0xf846_2090, 0x7c23_1048);
    OneByteIs(0x7c23_107a, 0x3e11_883d, 0xf2b0_473e, 0x7958_239f, 0xd114_92ef, 0x8532_ca57, 0xaf21_e60b, 0xba28_7025, 0xb0ac_bb32);
    OneByteIs(0xb0ac_bb01, 0xb5ee_dea0, 0x5af7_6f50, 0x2d7b_b7a8, 0x16bd_dbd4, 0x0b5e_edea, 0x05af_76f5, 0xef6f_385a, 0x77b7_9c2d);
    OneByteIs(0x77b7_9c19, 0xd663_4d2c, 0x6b31_a696, 0x3598_d34b, 0xf774_ea85, 0x9602_f662, 0x4b01_7b31, 0xc838_3eb8, 0x641c_1f5c);
    OneByteIs(0x641c_1f69, 0xdfb6_8c94, 0x6fdb_464a, 0x37ed_a325, 0xf64e_52b2, 0x7b27_2959, 0xd02b_178c, 0x6815_8bc6, 0x340a_c5e3);
    OneByteIs(0x340a_c5d5, 0xf7bd_e1ca, 0x7bde_f0e5, 0xd057_fb52, 0x682b_fda9, 0xd9ad_7df4, 0x6cd6_befa, 0x366b_5f7d, 0xf68d_2c9e);
    OneByteIs(0xf68d_2ca9, 0x96fe_1574, 0x4b7f_0aba, 0x25bf_855d, 0xff67_418e, 0x7fb3_a0c7, 0xd261_5343, 0x8488_2a81, 0xaffc_9660);
    OneByteIs(0xaffc_9658, 0x57fe_4b2c, 0x2bff_2596, 0x15ff_92cb, 0xe747_4a45, 0x9e1b_2602, 0x4f0d_9301, 0xca3e_4aa0, 0x651f_2550);
    OneByteIs(0x651f_2569, 0xdf37_1194, 0x6f9b_88ca, 0x37cd_c465, 0xf65e_6112, 0x7b2f_3089, 0xd02f_1b64, 0x6817_8db2, 0x340b_c6d9);
  }
}

/** Words of four or eight bytes, least significant byte first, and the register added to them. */
module CrcWords {
  import opened Gf2
  import opened CrcRegister

  function Extend(c: bv32): bv64 {
    c as bv64
  }

  function Xor64(a: bv64, b: bv64): bv64 {
    a ^ b
  }

  function LowByte(d: bv64): bv32 {
    (d & 0xff) as bv32
  }

  function Rest(d: bv64): bv64 {
    d >> 8
  }

  /** Byte `k` of a word's bytes; a four-byte word has no more than four. */
  function Octet(s: seq<bv8>, k: nat): bv8 {
    if k < |s| then s[k] else 0
  }

  function Join(x0: bv8, x1: bv8, x2: bv8, x3: bv8, x4: bv8, x5: bv8, x6: bv8, x7: bv8): bv64 {
    (x0 as bv64) | ((x1 as bv64) << 8) | ((x2 as bv64) << 16) | ((x3 as bv64) << 24) |
    ((x4 as bv64) << 32) | ((x5 as bv64) << 40) | ((x6 as bv64) << 48) | ((x7 as bv64) << 56)
  }

  /** A word as a little-endian machine reads it. */
  function Load(s: seq<bv8>): bv64 {
    Join(Octet(s, 0), Octet(s, 1), Octet(s, 2), Octet(s, 3), Octet(s, 4), Octet(s, 5), Octet(s, 6), Octet(s, 7))
  }

  lemma {:induction false} RawJoin(x0: bv8, x1: bv8, x2: bv8, x3: bv8, x4: bv8, x5: bv8, x6: bv8, x7: bv8, w: bv64)
    requires w == (x0 as bv64) | ((x1 as bv64) << 8) | ((x2 as bv64) << 16) | ((x3 as bv64) << 24) |
      ((x4 as bv64) << 32) | ((x5 as bv64) << 40) | ((x6 as bv64) << 48) | ((x7 as bv64) << 56)
    ensures w & 0xff == x0 as bv64
    ensures w >> 8 == (x1 as bv64) | ((x2 as bv64) << 8) | ((x3 as bv64) << 16) | ((x4 as bv64) << 24) |
      ((x5 as bv64) << 32) | ((x6 as bv64) << 40) | ((x7 as bv64) << 48) | ((0 as bv64) << 56)
  {
  }

  lemma {:induction false} JoinStep(x0: bv8, x1: bv8, x2: bv8, x3: bv8, x4: bv8, x5: bv8, x6: bv8, x7: bv8, w: bv64)
    requires w == Join(x0, x1, x2, x3, x4, x5, x6, x7)
    ensures w & 0xff == x0 as bv64 && w >> 8 == Join(x1, x2, x3, x4, x5, x6, x7, 0)
  {
    RawJoin(x0, x1, x2, x3, x4, x5, x6, x7, w);
  }

  lemma {:induction false} LoadStep(s: seq<bv8>, w: bv64)
    requires 0 < |s| <= 8 && w == Load(s)
    ensures LowByte(w) == Wide(s[0]) && Rest(w) == Load(s[1..])
  {
    hide Join;
    JoinStep(Octet(s, 0), Octet(s, 1), Octet(s, 2), Octet(s, 3), Octet(s, 4), Octet(s, 5), Octet(s, 6), Octet(s, 7), w);
    RawWide(s[0], w);
  }

  lemma {:induction false} RawWide(b: bv8, w: bv64)
    requires w & 0xff == b as bv64
    ensures (w & 0xff) as bv32 == b as bv32
  {
  }

  lemma {:induction false} RawXor(a: bv64, b: bv64)
    ensures ((a ^ b) & 0xff) as bv32 == ((a & 0xff) as bv32) ^ ((b & 0xff) as bv32)
    ensures (a ^ b) >> 8 == (a >> 8) ^ (b >> 8)
  {
  }

  lemma {:induction false} XorParts(a: bv64, b: bv64)
    ensures LowByte(Xor64(a, b)) == Add(LowByte(a), LowByte(b))
    ensures Rest(Xor64(a, b)) == Xor64(Rest(a), Rest(b))
  {
    RawXor(a, b);
  }

  lemma {:induction false} RawExtend(c: bv32)
    ensures ((c as bv64) & 0xff) as bv32 == c & 0xff
    ensures (c as bv64) >> 8 == (c >> 8) as bv64
  {
  }

  lemma {:induction false} ExtendParts(c: bv32)
    ensures LowByte(Extend(c)) == Low(c) && Rest(Extend(c)) == Extend(Shifted(c))
  {
    RawExtend(c);
  }

  lemma {:induction false} RawLow(c: bv32, b: bv8)
    ensures (c ^ (b as bv32)) & 0xff == (c & 0xff) ^ (b as bv32)
  {
  }

  lemma {:induction false} LowAdd(c: bv32, b: bv8)
    ensures Low(Add(c, Wide(b))) == Add(Low(c), Wide(b))
  {
    RawLow(c, b);
  }

  /** Taking the low byte off a word that the register has been added to. */
  lemma {:induction false} WordStep(c: bv32, s: seq<bv8>, d: bv64)
    requires 0 < |s| <= 8 && d == Xor64(Extend(c), Load(s))
    ensures LowByte(d) == Low(Add(c, Wide(s[0])))
    ensures Rest(d) == Xor64(Extend(Shifted(c)), Load(s[1..]))
  {
    hide Load, LowByte, Rest, Xor64, Extend, Low, Add, Wide, Shifted;
    XorParts(Extend(c), Load(s));
    ExtendParts(c);
    LoadStep(s, Load(s));
    LowAdd(c, s[0]);
  }

  lemma {:induction false} LoadNone()
    ensures Load([]) == 0
  {
    RawNothing();
  }

  lemma {:induction false} RawNothing()
    ensures Join(0, 0, 0, 0, 0, 0, 0, 0) == 0
  {
  }

  lemma {:induction false} RawExtendXor(a: bv32, b: bv32, w: bv64)
    ensures ((a as bv64) ^ w) ^ (b as bv64) == ((a ^ b) as bv64) ^ w
    ensures (a as bv64) ^ 0 == a as bv64
    ensures (a as bv64) as bv32 == a
  {
  }

  lemma {:induction false} ExtendXor(a: bv32, b: bv32, w: bv64)
    ensures Xor64(Xor64(Extend(a), w), Extend(b)) == Xor64(Extend(Add(a, b)), w)
    ensures Xor64(Extend(a), 0) == Extend(a)
  {
    RawExtendXor(a, b, w);
  }
}

/** The braids: N registers, each taking every N-th word, that are put together in the last block. */
module CrcBraid {
  import opened Gf2
  import opened Gf2Powers
  import opened CrcRegister
  import opened CrcWords

  // ----- one word -----

  /** The contributions of `n` bytes of a word, the first with `m` bytes to go, itself included. */
  function Terms(d: bv64, n: nat, m: nat): bv32
    requires n <= m
  {
    if n == 0 then 0 else Add(Times(LowByte(d), 8 * m), Terms(Rest(d), n - 1, m - 1))
  }

  function Down(c: bv32, n: nat): bv32 {
    if n == 0 then c else Down(Shifted(c), n - 1)
  }

  lemma {:induction false} RawGone(c: bv32)
    ensures (((c >> 8) >> 8) >> 8) >> 8 == 0
    ensures (0 as bv32) >> 8 == 0
  {
  }

  lemma {:induction false} DownFour(c: bv32)
    ensures Shifted(Shifted(Shifted(Shifted(c)))) == 0 && Shifted(0) == 0
  {
    RawGone(c);
  }

  lemma {:induction false} DownZero(n: nat)
    ensures Down(0, n) == 0
  {
    hide Shifted;
    DownFour(0);
    if n > 0 {
      DownZero(n - 1);
    }
  }

  lemma {:induction false} DownGone(c: bv32, n: nat)
    requires 4 <= n
    ensures Down(c, n) == 0
  {
    hide Shifted;
    DownFour(c);
    var c1 := Shifted(c);
    var c2 := Shifted(c1);
    var c3 := Shifted(c2);
    DownZero(n - 4);
    assert Down(c3, n - 3) == Down(0, n - 4);
    assert Down(c2, n - 2) == Down(c3, n - 3);
    assert Down(c1, n - 1) == Down(c2, n - 2);
  }

  /** The bytes' contributions are what the register makes of them, moved past the bytes in between. */
  lemma {:induction false} WordTerms(c: bv32, s: seq<bv8>, d: bv64, m: nat)
    requires |s| <= 8 && |s| <= m && d == Xor64(Extend(c), Load(s))
    ensures Add(Terms(d, |s|, m), Times(Down(c, |s|), 8 * (m - |s|))) == Times(Register(c, s), 8 * (m - |s|))
    decreases |s|
  {
    hide Add, Times, LowByte, Rest, Load, Xor64, Extend, Low, Shifted, Feed;
    if s == [] {
      AddCancels(Times(c, 8 * m));
    } else {
      var h, t, r, k := Shifted(c), Times(LowByte(d), 8), s[1..], 8 * (m - |s|);
      WordStep(c, s, d);
      WordTerms(h, r, Rest(d), m - 1);
      FeedByTable(c, s[0]);
      RegisterAdd(h, t, r);
      TimesAdd(Register(h, r), Times(t, 8 * |r|), k);
      TimesTimes(t, 8 * |r|, k);
      TimesTimes(LowByte(d), 8, 8 * |r| + k);
      assert 8 + (8 * |r| + k) == 8 * m;
      var a, b := Times(LowByte(d), 8 * m), Terms(Rest(d), |r|, m - 1);
      AddAssociates(a, b, Times(Down(h, |r|), k));
      AddCommutes(a, Times(Register(h, r), k));
    }
  }

  lemma {:induction false} WholeWordTerms(c: bv32, s: seq<bv8>, d: bv64, m: nat)
    requires 4 <= |s| <= 8 && |s| <= m && d == Xor64(Extend(c), Load(s))
    ensures Terms(d, |s|, m) == Times(Register(c, s), 8 * (m - |s|))
  {
    hide Add, Times, Down, Terms, Load, Xor64, Extend, Register;
    WordTerms(c, s, d, m);
    DownGone(c, |s|);
    TimesZero(8 * (m - |s|));
    AddCancels(Terms(d, |s|, m));
  }

  /** Byte `k` of a word is the low byte of this: the word moved down by k bytes. */
  function Nth(d: bv64, k: nat): bv64 {
    if k == 0 then d else Rest(Nth(d, k - 1))
  }

  /** The sum of the first `k` bytes' table entries, in the order the braid loop forms it. */
  function FirstTerms(d: bv64, k: nat, m: nat): bv32
    requires k <= m
  {
    if k == 0 then 0 else Add(FirstTerms(d, k - 1, m), Times(LowByte(Nth(d, k - 1)), 8 * (m - k + 1)))
  }

  lemma {:induction false} TermsLeft(d: bv64, k: nat, n: nat, m: nat)
    requires k <= n <= m
    ensures Add(FirstTerms(d, k, m), Terms(Nth(d, k), n - k, m - k)) == Terms(d, n, m)
  {
    hide Add, Times, LowByte, Rest;
    if k == 0 {
      AddCancels(Terms(d, n, m));
    } else {
      TermsLeft(d, k - 1, n, m);
      AddAssociates(FirstTerms(d, k - 1, m), Times(LowByte(Nth(d, k - 1)), 8 * (m - k + 1)),
        Terms(Nth(d, k), n - k, m - k));
    }
  }

  lemma {:induction false} TermsAll(d: bv64, n: nat, m: nat)
    requires n <= m
    ensures FirstTerms(d, n, m) == Terms(d, n, m)
  {
    hide Add, Times, LowByte, Rest;
    TermsLeft(d, n, n, m);
    AddCancels(FirstTerms(d, n, m));
  }

  // ----- a block of words -----

  /** The bytes of `n` words of `w` bytes. */
  function Len(w: nat, n: nat): nat {
    if n == 0 then 0 else w + Len(w, n - 1)
  }

  /** What the registers of the braids stand for: each adds to the next word of its braid. */
  function Weave(c: seq<bv32>, w: nat): bv32 {
    if c == [] then 0 else Add(Times(c[0], 8 * Len(w, |c|)), Weave(c[1..], w))
  }

  /** A block read word after word, each register joining in at its word: how the last block is read. */
  function Last(c: seq<bv32>, s: seq<bv8>, w: nat, r: bv32): bv32
    requires |s| == Len(w, |c|)
    decreases |c|
  {
    if c == [] then r else Last(c[1..], s[w..], w, Register(Add(c[0], r), s[..w]))
  }

  /** A block read braid by braid: each register takes its word and moves to the same word of the next block. */
  function Onward(c: seq<bv32>, s: seq<bv8>, w: nat, g: nat): (d: seq<bv32>)
    requires |s| == Len(w, |c|)
    ensures |d| == |c|
    decreases |c|
  {
    if c == [] then [] else [Times(Register(c[0], s[..w]), 8 * g)] + Onward(c[1..], s[w..], w, g)
  }

  lemma {:induction false} LenAt(w: nat, n: nat, j: nat)
    requires j < n
    ensures Len(w, j) + w <= Len(w, n) && Len(w, j) + w == Len(w, j + 1)
  {
    if j + 1 < n {
      LenAt(w, n - 1, j);
    }
  }

  /** Word `j` of a block of `n`. */
  function WordAt(s: seq<bv8>, w: nat, n: nat, j: nat): (r: seq<bv8>)
    requires |s| == Len(w, n) && j < n
    ensures |r| == w
  {
    LenAt(w, n, j);
    s[Len(w, j)..][..w]
  }

  lemma {:induction false} WordAfter(s: seq<bv8>, w: nat, n: nat, j: nat)
    requires |s| == Len(w, n) && 0 < j < n
    ensures WordAt(s, w, n, j) == WordAt(s[w..], w, n - 1, j - 1)
  {
    LenAt(w, n, j);
    LenAt(w, n - 1, j - 1);
    assert s[Len(w, j)..] == s[w..][Len(w, j - 1)..];
  }

  lemma {:induction false} OnwardAt(c: seq<bv32>, s: seq<bv8>, w: nat, g: nat, j: nat)
    requires |s| == Len(w, |c|) && j < |c|
    ensures Onward(c, s, w, g)[j] == Times(Register(c[j], WordAt(s, w, |c|, j)), 8 * g)
    decreases j
  {
    hide Times, Register;
    if j > 0 {
      WordAfter(s, w, |c|, j);
      OnwardAt(c[1..], s[w..], w, g, j - 1);
    } else {
      assert s[0..] == s;
    }
  }

  lemma {:induction false} LastIs(c: seq<bv32>, s: seq<bv8>, w: nat, r: bv32)
    requires |s| == Len(w, |c|)
    ensures Last(c, s, w, r) == Add(Times(r, 8 * |s|), Add(Weave(c, w), Register(0, s)))
    decreases |c|
  {
    hide Add, Times, Register;
    if c == [] {
      TimesNone(r);
      AddCancels(0);
      AddCancels(r);
      RegisterNone();
    } else {
      var n, a, b, t := 8 * |s|, s[..w], s[w..], c[1..];
      var m := 8 * |b|;
      var q := Register(Add(c[0], r), a);
      assert s == a + b;
      RegisterConcat(0, a, b);
      RegisterSplit(Register(0, a), b);
      RegisterSplit(Add(c[0], r), a);
      TimesAdd(c[0], r, 8 * w);
      TimesAdd(Times(Add(c[0], r), 8 * w), Register(0, a), m);
      TimesAdd(Times(c[0], 8 * w), Times(r, 8 * w), m);
      TimesTimes(c[0], 8 * w, m);
      TimesTimes(r, 8 * w, m);
      LastIs(t, b, w, q);
      Rearrange(Times(c[0], n), Times(r, n), Times(Register(0, a), m), Weave(t, w), Register(0, b));
    }
  }

  lemma {:induction false} RegisterNone()
    ensures Register(0, []) == 0
  {
  }

  lemma {:induction false} Rearrange(c: bv32, r: bv32, a: bv32, t: bv32, b: bv32)
    ensures Add(Add(Add(c, r), a), Add(t, b)) == Add(r, Add(Add(c, t), Add(a, b)))
  {
    hide Add;
    AddCommutes(c, r);
    AddAssociates(r, c, a);
    Regroup(c, a, t, b);
    AddAssociates(r, Add(c, a), Add(t, b));
  }

  lemma {:induction false} OnwardIs(c: seq<bv32>, s: seq<bv8>, w: nat, g: nat)
    requires |s| == Len(w, |c|)
    ensures Weave(Onward(c, s, w, g), w) == Times(Last(c, s, w, 0), 8 * (g + w))
    decreases |c|
  {
    hide Add, Times, Register;
    if c == [] {
      TimesZero(8 * (g + w));
    } else {
      var b, t, k := s[w..], c[1..], 8 * (g + w);
      var q := Register(c[0], s[..w]);
      var m := 8 * |b|;
      AddCancels(c[0]);
      OnwardIs(t, b, w, g);
      LastIs(t, b, w, q);
      LastIs(t, b, w, 0);
      TimesZero(m);
      var x := Add(Weave(t, w), Register(0, b));
      AddCancels(x);
      TimesAdd(Times(q, m), x, k);
      TimesTimes(q, m, k);
      TimesTimes(q, 8 * g, 8 * |s|);
      var d := Onward(c, s, w, g);
      assert d[1..] == Onward(t, b, w, g);
    }
  }

  /** The registers `c` stand for the register `r` of the bytes read so far. */
  predicate Woven(c: seq<bv32>, w: nat, r: bv32) {
    Weave(c, w) == Times(r, 8 * Len(w, |c|))
  }

  /** Both ways of reading a block compute what reading it byte by byte would. */
  lemma {:induction false} BlockRead(c: seq<bv32>, s: seq<bv8>, w: nat, r: bv32)
    requires |c| > 0 && |s| == Len(w, |c|) && Woven(c, w, r)
    ensures Last(c, s, w, 0) == Register(r, s)
    ensures Woven(Onward(c, s, w, Len(w, |c| - 1)), w, Register(r, s))
  {
    hide Add, Times, Register, Weave, Last, Onward;
    LastIs(c, s, w, 0);
    TimesZero(8 * |s|);
    AddCancels(Add(Weave(c, w), Register(0, s)));
    RegisterSplit(r, s);
    OnwardIs(c, s, w, Len(w, |c| - 1));
  }

  /** At the start the first braid has the register and the others nothing. */
  lemma {:induction false} FirstWoven(r: bv32, n: nat, w: nat)
    requires n > 0
    ensures Woven([r] + seq(n - 1, i => 0), w, r)
  {
    hide Add, Times;
    var z: seq<bv32> := seq(n - 1, i => 0);
    var c := [r] + z;
    assert c[1..] == z;
    WeaveZero(z, w);
    AddCancels(Times(r, 8 * Len(w, n)));
  }

  lemma {:induction false} WeaveZero(z: seq<bv32>, w: nat)
    requires forall i :: 0 <= i < |z| ==> z[i] == 0
    ensures Weave(z, w) == 0
  {
    hide Add, Times;
    if z != [] {
      TimesZero(8 * Len(w, |z|));
      WeaveZero(z[1..], w);
      AddCancels(0);
    }
  }
}

/** crc32.c's tables and procedures. */
module Crc32 {
  import opened Gf2
  import opened Gf2Powers
  import opened CrcRegister
  import opened CrcWords
  import opened CrcBraid

  // ----- tables -----

  predicate IsByte(i: bv32) {
    i < 256
  }

  function Index(i: bv32): (k: nat)
    requires IsByte(i)
    ensures k < 256
  {
    i as int
  }

  lemma {:induction false} IndexUnique(i: bv32, j: bv32)
    requires IsByte(i) && IsByte(j)
    ensures Index(i) == Index(j) ==> i == j
  {
    IndexBack(i);
    IndexBack(j);
  }

  lemma {:induction false} IndexBack(i: bv32)
    requires i < 256
    ensures (i as int) as bv32 == i
  {
  }

  lemma {:induction false} IndexNext(i: bv32)
    requires i < 256
    ensures (i + 1) as int == i as int + 1 && i + 1 <= 256
  {
  }

  predicate Before(j: bv32, i: bv32) {
    j < i
  }

  lemma {:induction false} BeforeNext(i: bv32, j: bv32)
    requires i < 256 && Before(j, i + 1)
    ensures (Before(j, i) || j == i) && IsByte(j)
  {
  }

  lemma {:induction false} LowIsByte(c: bv32, d: bv64)
    ensures IsByte(Low(c)) && IsByte(LowByte(d))
  {
  }

  /** crc_table: what a byte in the low end of the register becomes. */
  ghost predicate Filled(t: array<bv32>)
    reads t
  {
    && t.Length == 256
    && forall i: bv32 :: IsByte(i) ==> t[Index(i)] == Times(i, 8)
  }

  method MakeCrcTable() returns (t: array<bv32>)
    ensures fresh(t) && Filled(t)
  {
    hide Times, Xtime, Index;
    t := new bv32[256];
    var i: bv32 := 0;
    while i < 256
      invariant i <= 256
      invariant forall j: bv32 :: Before(j, i) ==> IsByte(j) && t[Index(j)] == Times(j, 8)
      decreases 256 - (i as int)
    {
      var p := i;
      TimesNone(i);
      for j := 0 to 8
        invariant p == Times(i, j)
        modifies {}
      {
        TimesNext(i, j);
        p := Xtime(p);
      }
      IndexNext(i);
      t[Index(i)] := p;
      forall j: bv32 | Before(j, i + 1) ensures IsByte(j) && t[Index(j)] == Times(j, 8) {
        BeforeNext(i, j);
        IndexUnique(i, j);
        if j != i {
          assert Before(j, i) && Index(j) != Index(i);
        }
      }
      i := i + 1;
    }
  }

  lemma {:induction false} TimesNext(i: bv32, j: nat)
    ensures Times(i, j + 1) == Xtime(Times(i, j))
  {
  }

  /** make_crc_table's squaring loop gives the literal table, entry for entry. */
  method MakeX2NTable() returns (t: array<bv32>)
    ensures fresh(t) && t.Length == 32 && forall k :: 0 <= k < 32 ==> t[k] == Entry(k)
  {
    hide Mul, Entry, XPow;
    t := new bv32[32];
    var p: bv32 := 0x4000_0000;
    t[0] := p;
    Entries0();
    TableMeans(0);
    for n := 1 to 32
      invariant p == Entry(n - 1) != 0
      invariant forall k :: 0 <= k < n ==> t[k] == Entry(k)
    {
      TableSquares(n - 1);
      TableMeans(n);
      p := MultModP(p, p);
      t[n] := p;
    }
  }

  /** crc_braid_table for `n` braids of words of `w` bytes: a byte's contribution to its braid's next word. */
  ghost predicate Braided(ltl: array2<bv32>, n: nat, w: nat)
    reads ltl
  {
    && ltl.Length0 == w && ltl.Length1 == 256
    && forall k, i: bv32 :: 0 <= k < w && k <= Len(w, n) && IsByte(i) ==> ltl[k, Index(i)] == Times(i, 8 * (Len(w, n) - k))
  }

  lemma {:induction false} RawTopByte(i: bv32)
    requires i < 256
    ensures i >> 24 == 0 && (i << 8) >> 24 == 0 && (i << 16) >> 24 == 0
    ensures (i << 8) << 8 == i << 16 && (i << 16) << 8 == i << 24
  {
  }

  lemma {:induction false} RawTopNonZero(i: bv32)
    requires i < 256 && i != 0
    ensures i << 24 != 0
  {
  }

  lemma {:induction false} TopByteDown(i: bv32, a: bv32, b: bv32, c: bv32)
    requires i >> 24 == 0 && a == i << 8 && a >> 24 == 0 && b == a << 8 && b >> 24 == 0 && c == b << 8
    ensures Times(c, 24) == i
  {
    hide Times;
    TimesByte(i);
    TimesByte(a);
    TimesByte(b);
    TimesTimes(c, 8, 8);
    TimesTimes(c, 16, 8);
  }

  /** The entry braid() computes: from the byte at the top of the register. */
  lemma {:induction false} BraidEntry(i: bv32, m: nat)
    requires IsByte(i)
    ensures Mul(i << 24, XPow(8 * (m + 3))) == Times(i, 8 * m)
  {
    hide Mul, Times, XPow;
    var c := i << 24;
    RawTopByte(i);
    TopByteDown(i, i << 8, i << 16, c);
    MulCommutes(c, XPow(8 * (m + 3)));
    XPowMul(8 * (m + 3), c);
    TimesTimes(c, 24, 8 * m);
  }

  lemma {:induction false} LenIs(w: nat, n: nat)
    ensures Len(w, n) == n * w
  {
    if n > 0 {
      LenIs(w, n - 1);
      assert n * w == (n - 1) * w + w;
    }
  }

  /** Entries before `i` of row `k`, with `m` bytes from that byte to its braid's next word. */
  ghost predicate RowFilled(ltl: array2<bv32>, k: nat, i: bv32, m: nat)
    requires k < ltl.Length0 && ltl.Length1 == 256
    reads ltl
  {
    forall j: bv32 :: Before(j, i) ==> IsByte(j) && ltl[k, Index(j)] == Times(j, 8 * m)
  }

  method BraidRow(ltl: array2<bv32>, k: nat, m: nat)
    requires k < ltl.Length0 && ltl.Length1 == 256
    modifies ltl
    ensures RowFilled(ltl, k, 256, m)
    ensures forall l, j :: 0 <= l < ltl.Length0 && l != k && 0 <= j < 256 ==> ltl[l, j] == old(ltl[l, j])
  {
    hide Times, Index, Mul, XPow;
    var p := X2NModP(8 * (m + 3), 0);
    assert 8 * (m + 3) * Two(0) == 8 * (m + 3);
    ltl[k, 0] := 0;
    TimesZero(8 * m);
    IndexZero();
    var i: bv32 := 1;
    while i < 256
      invariant 1 <= i <= 256
      invariant RowFilled(ltl, k, i, m)
      invariant forall l, j :: 0 <= l < ltl.Length0 && l != k && 0 <= j < 256 ==> ltl[l, j] == old(ltl[l, j])
      decreases 256 - (i as int)
    {
      RawTopNonZero(i);
      var q := MultModP(i << 24, p);
      BraidEntry(i, m);
      IndexNext(i);
      ltl[k, Index(i)] := q;
      forall j: bv32 | Before(j, i + 1) ensures IsByte(j) && ltl[k, Index(j)] == Times(j, 8 * m) {
        BeforeNext(i, j);
        IndexUnique(i, j);
        if j != i {
          assert Before(j, i) && Index(j) != Index(i);
        }
      }
      i := i + 1;
    }
  }

  lemma {:induction false} IndexZero()
    ensures Index(0) == 0 && forall j: bv32 :: Before(j, 1) ==> j == 0
  {
  }

  /** braid(): the tables for `n` braids of words of `w` bytes. */
  method Braid(n: nat, w: nat) returns (ltl: array2<bv32>)
    requires 1 <= n && 1 <= w
    ensures fresh(ltl) && Braided(ltl, n, w)
  {
    hide Times, Index, RowFilled;
    LenIs(w, n);
    ltl := new bv32[w, 256];
    for k := 0 to w
      invariant forall l, i: bv32 :: 0 <= l < k && l <= Len(w, n) && IsByte(i) ==>
        ltl[l, Index(i)] == Times(i, 8 * (Len(w, n) - l))
    {
      assert w <= n * w;
      BraidRow(ltl, k, n * w - k);
      forall i: bv32 | IsByte(i) ensures ltl[k, Index(i)] == Times(i, 8 * (Len(w, n) - k)) {
        RowEntry(ltl, k, Len(w, n) - k, i);
      }
    }
  }

  lemma {:induction false} RowEntry(ltl: array2<bv32>, k: nat, m: nat, i: bv32)
    requires k < ltl.Length0 && ltl.Length1 == 256 && RowFilled(ltl, k, 256, m) && IsByte(i)
    ensures ltl[k, Index(i)] == Times(i, 8 * m)
  {
    hide Times, Index;
    assert Before(i, 256);
  }

  // ----- the checksum -----

  /** One byte through the table: (crc >> 8) ^ crc_table[(crc ^ b) & 0xff]. */
  method NextByte(t: array<bv32>, c: bv32, b: bv8) returns (r: bv32)
    requires Filled(t)
    ensures r == Feed(c, b)
  {
    hide Times, Index, Add, Low, Shifted, Wide;
    var x := Low(Add(c, Wide(b)));
    LowIsByte(Add(c, Wide(b)), 0);
    FeedByTable(c, b);
    r := Add(Shifted(c), t[Index(x)]);
  }

  /** crc_word: the register after the bytes `s` of a word that `c` has been added to. */
  method CrcWord(t: array<bv32>, word: bv64, w: nat, ghost c: bv32, ghost s: seq<bv8>) returns (r: bv32)
    requires Filled(t) && |s| == w <= 8 && word == Xor64(Extend(c), Load(s))
    ensures r == Register(c, s)
  {
    hide Times, Index, Add, Low, Shifted, Wide, Load, Xor64, Extend, Rest, LowByte, Register, IsByte, Feed;
    var data := word;
    RegisterEmpty(c);
    assert s[..0] == [] && s[0..] == s;
    for k := 0 to w
      invariant data == Xor64(Extend(Register(c, s[..k])), Load(s[k..]))
    {
      ghost var g, u := Register(c, s[..k]), s[k..];
      LowIsByte(0, data);
      WordStep(g, u, data);
      FeedByTable(g, s[k]);
      RegisterOne(c, s[..k], s[k]);
      var e := t[Index(LowByte(data))];
      data := Xor64(Rest(data), Extend(e));
      ExtendXor(Shifted(g), e, Load(u[1..]));
      assert u[1..] == s[k + 1..] && s[..k + 1] == s[..k] + [s[k]];
    }
    assert s[..w] == s && s[w..] == [];
    LoadNone();
    ExtendXor(Register(c, s), 0, 0);
    r := Narrow(data);
    NarrowExtend(Register(c, s));
  }

  function Narrow(d: bv64): bv32 {
    (d & 0xffff_ffff) as bv32
  }

  lemma {:induction false} NarrowExtend(c: bv32)
    ensures Narrow(Extend(c)) == c
  {
  }

  lemma {:induction false} RegisterEmpty(c: bv32)
    ensures Register(c, []) == c
  {
  }

  /** Every braid's word of the block `s`, with the braid's register added. */
  method LoadWords(n: nat, w: nat, c: array<bv32>, s: seq<bv8>) returns (words: array<bv64>)
    requires c.Length == n && |s| == Len(w, n)
    ensures fresh(words) && words.Length == n
    ensures forall i :: 0 <= i < n ==> words[i] == Xor64(Extend(c[i]), Load(WordAt(s, w, n, i)))
  {
    hide Load, Xor64, Extend, WordAt;
    words := new bv64[n];
    for j := 0 to n
      invariant forall i :: 0 <= i < j ==> words[i] == Xor64(Extend(c[i]), Load(WordAt(s, w, n, i)))
    {
      words[j] := Xor64(Extend(c[j]), Load(WordAt(s, w, n, j)));
    }
  }

  /** The words through the braid tables, one byte of every word at a time. */
  method LookUpWords(ltl: array2<bv32>, n: nat, w: nat, words: array<bv64>, c: array<bv32>)
    requires 1 <= n && 1 <= w <= Len(w, n) && Braided(ltl, n, w) && c.Length == words.Length == n
    modifies c
    ensures forall i :: 0 <= i < n ==> c[i] == FirstTerms(words[i], w, Len(w, n))
  {
    hide Times, Index, Add, Rest, LowByte, IsByte;
    for j := 0 to n
      invariant forall i :: 0 <= i < j ==> c[i] == FirstTerms(words[i], 1, Len(w, n))
    {
      LowIsByte(0, words[j]);
      FirstTerm(words[j], Len(w, n));
      c[j] := ltl[0, Index(LowByte(words[j]))];
    }
    for k := 1 to w
      invariant forall i :: 0 <= i < n ==> c[i] == FirstTerms(words[i], k, Len(w, n))
    {
      for j := 0 to n
        invariant forall i :: 0 <= i < j ==> c[i] == FirstTerms(words[i], k + 1, Len(w, n))
        invariant forall i :: j <= i < n ==> c[i] == FirstTerms(words[i], k, Len(w, n))
      {
        LowIsByte(0, Nth(words[j], k));
        c[j] := Add(c[j], ltl[k, Index(LowByte(Nth(words[j], k)))]);
      }
    }
  }

  /** The braid loop's body: every register takes its word of the block `s`. */
  method ReadBraided(ltl: array2<bv32>, n: nat, w: nat, c: array<bv32>, s: seq<bv8>)
    requires 1 <= n && 4 <= w <= 8 && Braided(ltl, n, w) && c.Length == n && |s| == Len(w, n)
    modifies c
    ensures c[..] == Onward(old(c[..]), s, w, Len(w, n - 1))
  {
    hide Times, Load, Xor64, Extend, Register, WordAt, Terms, FirstTerms, Onward, Braided;
    ghost var c0 := c[..];
    var words := LoadWords(n, w, c, s);
    ghost var d := words[..];
    LookUpWords(ltl, n, w, words, c);
    forall j | 0 <= j < n ensures c[j] == Onward(c0, s, w, Len(w, n - 1))[j] {
      TermsAll(d[j], w, Len(w, n));
      WholeWordTerms(c0[j], WordAt(s, w, n, j), d[j], Len(w, n));
      OnwardAt(c0, s, w, Len(w, n - 1), j);
    }
  }

  lemma {:induction false} FirstTerm(d: bv64, m: nat)
    requires 1 <= m
    ensures FirstTerms(d, 1, m) == Times(LowByte(d), 8 * m)
  {
    hide Add, Times, LowByte;
    AddCancels(Times(LowByte(d), 8 * m));
    assert FirstTerms(d, 0, m) == 0;
    assert Nth(d, 0) == d;
  }

  lemma {:induction false} LenRest(w: nat, n: nat, j: nat)
    requires j <= n
    ensures Len(w, n) == Len(w, j) + Len(w, n - j)
  {
    if j > 0 {
      LenRest(w, n - 1, j - 1);
    }
  }

  lemma {:induction false} LastStep(c: seq<bv32>, s: seq<bv8>, w: nat, n: nat, j: nat, r: bv32)
    requires |c| == n && |s| == Len(w, n) && j < n
    ensures Len(w, j) <= |s| && Len(w, j + 1) <= |s|
    ensures |s[Len(w, j)..]| == Len(w, n - j) && |s[Len(w, j + 1)..]| == Len(w, n - j - 1)
    ensures Last(c[j..], s[Len(w, j)..], w, r)
         == Last(c[j + 1..], s[Len(w, j + 1)..], w, Register(Add(c[j], r), WordAt(s, w, n, j)))
  {
    hide Add, Register;
    LenRest(w, n, j);
    LenRest(w, n, j + 1);
    LenAt(w, n, j);
    assert c[j..][1..] == c[j + 1..] && c[j..][0] == c[j];
    assert s[Len(w, j)..][w..] == s[Len(w, j + 1)..];
  }

  /** The last block: the words in order, each with its braid's register and what came before it. */
  method ReadLast(t: array<bv32>, n: nat, w: nat, c: array<bv32>, s: seq<bv8>) returns (r: bv32)
    requires 1 <= n && 4 <= w <= 8 && Filled(t) && c.Length == n && |s| == Len(w, n)
    ensures r == Last(c[..], s, w, 0)
  {
    hide Load, Xor64, Extend, Register, Add, Last, WordAt, Filled;
    LastStep(c[..], s, w, n, 0, 0);
    AddCancels(c[0]);
    r := CrcWord(t, Xor64(Extend(c[0]), Load(WordAt(s, w, n, 0))), w, c[0], WordAt(s, w, n, 0));
    assert c[..][0..] == c[..] && s[0..] == s;
    for j := 1 to n
      invariant Len(w, j) <= |s| && |s[Len(w, j)..]| == Len(w, n - j)
      invariant Last(c[..][j..], s[Len(w, j)..], w, r) == Last(c[..], s, w, 0)
    {
      ghost var u := WordAt(s, w, n, j);
      LastStep(c[..], s, w, n, j, r);
      ExtendXor(c[j], r, Load(u));
      r := CrcWord(t, Xor64(Xor64(Extend(c[j]), Load(WordAt(s, w, n, j))), Extend(r)), w, Add(c[j], r), u);
    }
    LastNone(s[Len(w, n)..], w, r);
  }

  lemma {:induction false} LastNone(s: seq<bv8>, w: nat, r: bv32)
    requires |s| == Len(w, 0)
    ensures Last([], s, w, r) == r
  {
  }

  lemma {:induction false} RegisterFurther(c: bv32, s: seq<bv8>, i: nat, j: nat)
    requires i <= j <= |s|
    ensures Register(c, s[..j]) == Register(Register(c, s[..i]), s[i..j])
  {
    hide Register;
    assert s[..j] == s[..i] + s[i..j];
    RegisterConcat(c, s[..i], s[i..j]);
  }

  lemma {:induction false} RegisterNext(c: bv32, s: seq<bv8>, i: nat)
    requires i < |s|
    ensures Register(c, s[..i + 1]) == Feed(Register(c, s[..i]), s[i])
  {
    hide Register, Feed;
    assert s[..i + 1] == s[..i] + [s[i]];
    RegisterOne(c, s[..i], s[i]);
  }

  /** The braided part: `blks` blocks of `s`, braided but for the last. */
  method ReadBlocks(t: array<bv32>, ltl: array2<bv32>, n: nat, w: nat, crc: bv32, s: seq<bv8>, blks: nat) returns (r: bv32)
    requires Filled(t) && Braided(ltl, n, w) && 1 <= n && 4 <= w <= 8
    requires 1 <= blks && |s| == Len(Len(w, n), blks)
    ensures r == Register(crc, s)
  {
    hide Register, Woven, Last, Onward, Filled, Braided;
    var crcs := new bv32[n](i => if i == 0 then crc else 0);
    FirstWoven(crc, n, w);
    assert crcs[..] == [crc] + seq(n - 1, i => 0);
    var pos, left := 0, blks - 1;
    RegisterEmpty(crc);
    assert s[..0] == [];
    while left != 0
      invariant 0 <= left && 0 <= pos && pos + Len(Len(w, n), left + 1) == |s|
      invariant Woven(crcs[..], w, Register(crc, s[..pos]))
      decreases left
    {
      var block := s[pos..pos + Len(w, n)];
      BlockRead(crcs[..], block, w, Register(crc, s[..pos]));
      RegisterFurther(crc, s, pos, pos + Len(w, n));
      ReadBraided(ltl, n, w, crcs, block);
      pos, left := pos + Len(w, n), left - 1;
    }
    var block := s[pos..];
    BlockRead(crcs[..], block, w, Register(crc, s[..pos]));
    RegisterFurther(crc, s, pos, |s|);
    assert s[..|s|] == s && s[pos..|s|] == block;
    r := ReadLast(t, n, w, crcs, block);
  }

  datatype Buffer = Null | At(address: nat, bytes: seq<bv8>)

  /** The bytes before the next multiple of the word size. */
  function Gap(a: nat, w: nat): (g: nat)
    requires 0 < w
    ensures g < w
  {
    (w - a % w) % w
  }

  lemma {:induction false} GapMeans(a: nat, p: nat, w: nat)
    requires w == 4 || w == 8
    requires p <= Gap(a, w) && (a + p) % w != 0
    ensures p < Gap(a, w)
  {
    if w == 4 {
    } else {
    }
  }

  /** Bytes one at a time up to a word boundary. */
  method Align(t: array<bv32>, w: nat, crc: bv32, address: nat, s: seq<bv8>) returns (c: bv32, pos: nat)
    requires Filled(t) && (w == 4 || w == 8)
    ensures pos < w && pos <= |s| && c == Register(crc, s[..pos])
  {
    hide Register, Filled, Feed, Gap;
    var len := |s|;
    c, pos := crc, 0;
    RegisterEmpty(crc);
    assert s[..0] == [];
    while len != 0 && (address + pos) % w != 0
      invariant pos <= Gap(address, w) && 0 <= len && pos + len == |s| && c == Register(crc, s[..pos])
      decreases len
    {
      GapMeans(address, pos, w);
      len := len - 1;
      RegisterNext(crc, s, pos);
      c := NextByte(t, c, s[pos]);
      pos := pos + 1;
    }
  }

  /** The remaining bytes: eight at a time, then one at a time. */
  method Finish(t: array<bv32>, crc: bv32, s: seq<bv8>) returns (c: bv32)
    requires Filled(t)
    ensures c == Register(crc, s)
  {
    hide Register, Filled, Feed;
    var len, pos := |s|, 0;
    c := crc;
    RegisterEmpty(crc);
    assert s[..0] == [];
    while len >= 8
      invariant 0 <= len && pos + len == |s| && 0 <= pos && c == Register(crc, s[..pos])
      decreases len
    {
      len := len - 8;
      for k := 0 to 8
        invariant pos + 8 - k + len == |s| && 0 <= pos && c == Register(crc, s[..pos])
      {
        RegisterNext(crc, s, pos);
        c := NextByte(t, c, s[pos]);
        pos := pos + 1;
      }
    }
    while len != 0
      invariant 0 <= len && pos + len == |s| && 0 <= pos && c == Register(crc, s[..pos])
      decreases len
    {
      len := len - 1;
      RegisterNext(crc, s, pos);
      c := NextByte(t, c, s[pos]);
      pos := pos + 1;
    }
    assert s[..pos] == s;
  }

  /** crc32_z for `n` braids of words of `w` bytes: the checksum, whatever the buffer's length and alignment. */
  method Crc32Z(t: array<bv32>, ltl: array2<bv32>, n: nat, w: nat, crc: bv32, buf: Buffer) returns (r: bv32)
    requires Filled(t) && Braided(ltl, n, w) && 1 <= n && (w == 4 || w == 8)
    ensures r == if buf.Null? then 0 else Crc(crc, buf.bytes)
  {
    hide Register, Filled, Braided, Add, Len;
    if buf.Null? {
      return 0;
    }
    var s := buf.bytes;
    ghost var c0 := Add(crc, ALL);
    var c, pos := Add(crc, ALL), 0;
    RegisterEmpty(c0);
    assert s[..0] == [];
    if |s| >= n * w + w - 1 {
      c, pos := Align(t, w, c, buf.address, s);
      var len := |s| - pos;
      LenIs(w, n);
      assert n * w >= w;
      BlocksFit(len, n * w);
      var blks := len / (n * w);
      var end := pos + blks * (n * w);
      c := ReadBlocks(t, ltl, n, w, c, s[pos..end], blks);
      RegisterFurther(c0, s, pos, end);
      pos := end;
    }
    RegisterFurther(c0, s, pos, |s|);
    assert s[..|s|] == s && s[pos..|s|] == s[pos..];
    c := Finish(t, c, s[pos..]);
    r := Add(c, ALL);
  }

  lemma {:induction false} BlocksFit(len: nat, l: nat)
    requires 0 < l <= len
    ensures 1 <= len / l && Len(l, len / l) == (len / l) * l <= len
  {
    LenIs(l, len / l);
  }

  /** crc32_combine64: `len2` is the number of bytes `crc2` is the checksum of. */
  method Crc32Combine64(crc1: bv32, crc2: bv32, len2: nat) returns (r: bv32)
    ensures r == Add(Mul(XPow(8 * len2), crc1), crc2)
  {
    hide Mul, Add, XPow;
    var op := X2NModP(len2, 3);
    assert Two(3) == 8;
    var p := MultModP(op, crc1);
    r := Add(p, crc2);
  }

  /** Combining the checksums of two parts gives that of the whole, for every two parts. */
  method CombineParts(t: array<bv32>, ltl: array2<bv32>, n: nat, w: nat, a: Buffer, b: Buffer) returns (r: bv32)
    requires Filled(t) && Braided(ltl, n, w) && 1 <= n && (w == 4 || w == 8) && a.At? && b.At?
    ensures r == Crc(0, a.bytes + b.bytes)
  {
    hide Mul, Add, XPow, Register, Filled, Braided;
    var crc1 := Crc32Z(t, ltl, n, w, 0, a);
    var crc2 := Crc32Z(t, ltl, n, w, 0, b);
    CrcConcat(0, a.bytes, b.bytes);
    r := Crc32Combine64(crc1, crc2, |b.bytes|);
  }

  /** The checksum of a string followed by its checksum, least significant byte first, is the same for all strings. */
  method Recheck(t: array<bv32>, ltl: array2<bv32>, n: nat, w: nat, crc: bv32, a: Buffer, b: Buffer) returns (r: bv32)
    requires Filled(t) && Braided(ltl, n, w) && 1 <= n && (w == 4 || w == 8) && a.At? && b.At?
    requires b.bytes == a.bytes + FourBytes(Crc(crc, a.bytes))
    ensures r == 0x2144_df1c
  {
    hide Crc, Filled, Braided, FourBytes;
    Residue(crc, a.bytes);
    r := Crc32Z(t, ltl, n, w, crc, b);
  }
}
