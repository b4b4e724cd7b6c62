// Powers of x modulo the CRC polynomial: zlib's multmodp and x2nmodp (crc32.c), and the table of
// x^(2^k) of crc32.h that x2nmodp walks around.

module Gf2Powers {
  import opened Gf2

  // ----- powers of x -----

  /** `b` times x^n. */
  function Times(b: bv32, n: nat): bv32 {
    if n == 0 then b else Xtime(Times(b, n - 1))
  }

  /** x^n. */
  function XPow(n: nat): bv32 {
    Times(ONE, n)
  }

  lemma {:induction false} TimesTimes(b: bv32, m: nat, n: nat)
    ensures Times(Times(b, m), n) == Times(b, m + n)
  {
    hide Xtime;
    if n > 0 {
      TimesTimes(b, m, n - 1);
    }
  }

  lemma {:induction false} TimesAdd(a: bv32, b: bv32, n: nat)
    ensures Times(Add(a, b), n) == Add(Times(a, n), Times(b, n))
  {
    hide Xtime, Add;
    if n > 0 {
      TimesAdd(a, b, n - 1);
      XtimeAdd(Times(a, n - 1), Times(b, n - 1));
    }
  }

  lemma {:induction false} TimesZero(n: nat)
    ensures Times(0, n) == 0
  {
    hide Xtime;
    XtimeZero();
    if n > 0 {
      TimesZero(n - 1);
    }
  }

  lemma {:induction false} TimesMul(a: bv32, b: bv32, n: nat)
    ensures Mul(Times(a, n), b) == Times(Mul(a, b), n)
  {
    hide Xtime, Mul;
    if n > 0 {
      TimesMul(a, b, n - 1);
      XtimeMul(Times(a, n - 1), b);
    }
  }

  /** Multiplying by x^n is n multiplications by x. */
  lemma {:induction false} XPowMul(n: nat, b: bv32)
    ensures Mul(XPow(n), b) == Times(b, n)
  {
    hide Mul, Times;
    TimesMul(ONE, b, n);
    MulUnits(b);
  }

  lemma {:induction false} XPowAdd(m: nat, n: nat)
    ensures Mul(XPow(m), XPow(n)) == XPow(m + n)
  {
    hide Mul, Times;
    XPowMul(m, XPow(n));
    TimesTimes(ONE, n, m);
  }

  /** No power of x is 0: the polynomial has a constant term. */
  lemma {:induction false} XPowNonZero(n: nat)
    ensures XPow(n) != 0
  {
    hide Xtime;
    if n > 0 {
      XPowNonZero(n - 1);
      XtimeNonZero(XPow(n - 1));
    }
  }

  // ----- squaring -----

  /** Coefficient k of `a`, lowest power first, contributes `e` times x^(2k). */
  function Spread(a: bv32, e: bv32, n: nat): bv32
    decreases n
  {
    if n == 0 then 0 else Add(When(Top(a), e), Spread(Double(a), Xtime(Xtime(e)), n - 1))
  }

  lemma {:induction false} SpreadXtime(a: bv32, e: bv32, n: nat)
    ensures Spread(a, Xtime(e), n) == Xtime(Spread(a, e, n))
    decreases n
  {
    hide Add, Xtime, Top, Double, When;
    if n == 0 {
      XtimeZero();
    } else {
      var f := Xtime(Xtime(e));
      SpreadXtime(Double(a), f, n - 1);
      WhenAdd(Top(a), e, e);
      XtimeAdd(When(Top(a), e), Spread(Double(a), f, n - 1));
    }
  }

  /** Squaring is linear over GF(2), so it spreads the coefficients out. */
  lemma {:induction false} SquareFits(a: bv32, n: nat)
    requires n <= 32 && Fits(a, n)
    ensures Mul(a, a) == Spread(a, ONE, n)
    decreases n
  {
    hide Add, Xtime, Top, Double, Fits, Mul;
    if n == 0 {
      FitsAll(a);
      MulUnits(0);
    } else {
      var d, t := Double(a), if Top(a) then ONE else 0;
      var x := Xtime(d);
      FitsDouble(a, n);
      SquareFits(d, n - 1);
      SpreadXtime(d, ONE, n - 1);
      SpreadXtime(d, Xtime(ONE), n - 1);
      Split(a);
      SquareSum(t, x);
      MulXtime(x, d);
      XtimeMul(d, d);
      MulUnits(ONE);
      MulUnits(0);
    }
  }

  lemma {:induction false} SquareSum(a: bv32, b: bv32)
    ensures Mul(Add(a, b), Add(a, b)) == Add(Mul(a, a), Mul(b, b))
  {
    hide Add, Mul;
    MulAdd(Add(a, b), a, b);
    MulAdd(a, b, a);
    MulAdd(a, b, b);
    MulCommutes(a, b);
    AddCommutes(Mul(a, b), Mul(b, b));
    Regroup(Mul(a, a), Mul(a, b), Mul(b, b), Mul(a, b));
    AddCancels(Mul(a, b));
    AddCancels(Add(Mul(a, a), Mul(b, b)));
  }

  // ----- squares by evaluation -----
  // A constant is squared eight coefficients at a time. The predicates are written without the functions
  // above, so that on constants they are plain arithmetic.

  predicate SumFour(s: bv32, p: bv32, x0: bv32, x1: bv32, x2: bv32, x3: bv32) {
    s == p ^ x0 ^ x1 ^ x2 ^ x3
  }

  predicate Sum(s: bv32, p: bv32, x0: bv32, x1: bv32, x2: bv32, x3: bv32, x4: bv32, x5: bv32, x6: bv32, x7: bv32) {
    SumFour(s, p ^ x0 ^ x1 ^ x2 ^ x3, x4, x5, x6, x7)
  }

  /** `s` is `p` and what the top eight coefficients of `a` contribute, when `e0` is worth the first. */
  predicate Eight(a: bv32, p: bv32, s: bv32,
      e0: bv32, e1: bv32, e2: bv32, e3: bv32, e4: bv32, e5: bv32, e6: bv32, e7: bv32)
  {
    Sum(s, p,
      if a & 0x8000_0000 != 0 then e0 else 0, if (a << 1) & 0x8000_0000 != 0 then e1 else 0,
      if (a << 2) & 0x8000_0000 != 0 then e2 else 0, if (a << 3) & 0x8000_0000 != 0 then e3 else 0,
      if (a << 4) & 0x8000_0000 != 0 then e4 else 0, if (a << 5) & 0x8000_0000 != 0 then e5 else 0,
      if (a << 6) & 0x8000_0000 != 0 then e6 else 0, if (a << 7) & 0x8000_0000 != 0 then e7 else 0)
  }

  predicate IsSquare(a: bv32, p: bv32, q: bv32, r: bv32, s: bv32) {
    && Eight(a, 0, p, 0x8000_0000, 0x2000_0000, 0x0800_0000, 0x0200_0000,
      0x0080_0000, 0x0020_0000, 0x0008_0000, 0x0002_0000)
    && Eight(a << 8, p, q, 0x0000_8000, 0x0000_2000, 0x0000_0800, 0x0000_0200,
      0x0000_0080, 0x0000_0020, 0x0000_0008, 0x0000_0002)
    && Eight(a << 16, q, r, 0xedb8_8320, 0x3b6e_20c8, 0x0edb_8832, 0xee0e_612c,
      0x3b83_984b, 0x9584_24a2, 0xc8d9_8a08, 0x3236_6282)
    && Eight(a << 24, r, s, 0xe135_1b80, 0x384d_46e0, 0x0e13_51b8, 0x0384_d46e,
      0xed59_b63b, 0xa032_af3e, 0xc5b4_28ef, 0xaa09_c88b)
  }

  lemma {:induction false} AddIs(a: bv32, b: bv32)
    ensures Add(a, b) == a ^ b
  {
  }

  lemma {:induction false} WhenIs(a: bv32, e: bv32)
    ensures (if a & 0x8000_0000 != 0 then e else 0) == When(Top(a), e)
  {
  }

  lemma {:induction false} RawDoubles(a: bv32)
    ensures (a << 1) << 1 == a << 2 && (a << 2) << 1 == a << 3 && (a << 3) << 1 == a << 4
    ensures (a << 4) << 1 == a << 5 && (a << 5) << 1 == a << 6 && (a << 6) << 1 == a << 7 && (a << 7) << 1 == a << 8
    ensures (a << 8) << 8 == a << 16 && (a << 16) << 8 == a << 24
  {
  }

  lemma {:induction false} AddTwo(p: bv32, x0: bv32, x1: bv32)
    ensures Add(Add(p, x0), x1) == p ^ x0 ^ x1
  {
    hide Add;
    AddIs(p, x0);
    AddIs(Add(p, x0), x1);
  }

  lemma {:induction false} AddFour(p: bv32, x0: bv32, x1: bv32, x2: bv32, x3: bv32)
    ensures Add(Add(Add(Add(p, x0), x1), x2), x3) == p ^ x0 ^ x1 ^ x2 ^ x3
  {
    hide Add;
    AddTwo(p, x0, x1);
    AddTwo(Add(Add(p, x0), x1), x2, x3);
  }

  lemma {:induction false} SumFourIs(s: bv32, p: bv32, x0: bv32, x1: bv32, x2: bv32, x3: bv32)
    requires SumFour(s, p, x0, x1, x2, x3)
    ensures s == Add(Add(Add(Add(p, x0), x1), x2), x3)
  {
    hide Add;
    AddFour(p, x0, x1, x2, x3);
  }

  lemma {:induction false} SumIs(s: bv32, p: bv32, x0: bv32, x1: bv32, x2: bv32, x3: bv32,
      x4: bv32, x5: bv32, x6: bv32, x7: bv32)
    requires Sum(s, p, x0, x1, x2, x3, x4, x5, x6, x7)
    ensures s == Add(Add(Add(Add(Add(Add(Add(Add(p, x0), x1), x2), x3), x4), x5), x6), x7)
  {
    hide Add, SumFour;
    AddFour(p, x0, x1, x2, x3);
    SumFourIs(s, Add(Add(Add(Add(p, x0), x1), x2), x3), x4, x5, x6, x7);
  }

  /** One coefficient moves from the rest to the sum. */
  lemma {:induction false} SpreadStep(p: bv32, a: bv32, b: bv32, e: bv32, f: bv32, n: nat)
    requires b == Double(a) && f == Xtime(Xtime(e))
    ensures Add(p, Spread(a, e, n + 1)) == Add(Add(p, When(Top(a), e)), Spread(b, f, n))
  {
    hide Add, Xtime, Top, Double, When;
    AddAssociates(p, When(Top(a), e), Spread(b, f, n));
  }

  /** `f` is `e` times x^2. */
  predicate Next(e: bv32, f: bv32) {
    f == Xtime(Xtime(e))
  }

  /** `a` times x^-1, -2 and so on, up to -8: the first coefficient falls out each time. */
  function Drop(a: bv32, n: nat): bv32 {
    if n == 0 then a else Double(Drop(a, n - 1))
  }

  lemma {:induction false} RawNext(a: bv32, b: bv32)
    ensures b == a << 1 ==> b << 1 == a << 2
    ensures b == a << 2 ==> b << 1 == a << 3
    ensures b == a << 3 ==> b << 1 == a << 4
    ensures b == a << 4 ==> b << 1 == a << 5
    ensures b == a << 5 ==> b << 1 == a << 6
    ensures b == a << 6 ==> b << 1 == a << 7
    ensures b == a << 7 ==> b << 1 == a << 8
  {
  }

  lemma {:induction false} DoubleNext(a: bv32, b: bv32)
    ensures b == a ==> Double(b) == a << 1
    ensures b == a << 1 ==> Double(b) == a << 2
    ensures b == a << 2 ==> Double(b) == a << 3
    ensures b == a << 3 ==> Double(b) == a << 4
    ensures b == a << 4 ==> Double(b) == a << 5
    ensures b == a << 5 ==> Double(b) == a << 6
    ensures b == a << 6 ==> Double(b) == a << 7
    ensures b == a << 7 ==> Double(b) == a << 8
  {
    RawNext(a, b);
  }

  lemma {:induction false} Drops(a: bv32)
    ensures Drop(a, 0) == a && Drop(a, 1) == a << 1 && Drop(a, 2) == a << 2 && Drop(a, 3) == a << 3
    ensures Drop(a, 4) == a << 4 && Drop(a, 5) == a << 5 && Drop(a, 6) == a << 6 && Drop(a, 7) == a << 7
    ensures Drop(a, 8) == a << 8
  {
    hide Double;
    DoubleNext(a, a);
    DoubleNext(a, Drop(a, 1)); DoubleNext(a, Drop(a, 2)); DoubleNext(a, Drop(a, 3));
    DoubleNext(a, Drop(a, 4)); DoubleNext(a, Drop(a, 5)); DoubleNext(a, Drop(a, 6)); DoubleNext(a, Drop(a, 7));
  }

  /** What coefficient `n` of `a` contributes when it is worth `e`. */
  function Term(a: bv32, n: nat, e: bv32): bv32 {
    When(Top(Drop(a, n)), e)
  }

  lemma {:induction false} EightTerms(a: bv32, p: bv32, s: bv32,
      e0: bv32, e1: bv32, e2: bv32, e3: bv32, e4: bv32, e5: bv32, e6: bv32, e7: bv32)
    requires Eight(a, p, s, e0, e1, e2, e3, e4, e5, e6, e7)
    ensures Sum(s, p, Term(a, 0, e0), Term(a, 1, e1), Term(a, 2, e2), Term(a, 3, e3),
      Term(a, 4, e4), Term(a, 5, e5), Term(a, 6, e6), Term(a, 7, e7))
  {
    hide When, Top, Sum, Drop;
    Drops(a);
    WhenIs(a, e0); WhenIs(a << 1, e1); WhenIs(a << 2, e2); WhenIs(a << 3, e3);
    WhenIs(a << 4, e4); WhenIs(a << 5, e5); WhenIs(a << 6, e6); WhenIs(a << 7, e7);
  }

  lemma {:induction false} SpreadTerm(p: bv32, a: bv32, k: nat, e: bv32, f: bv32, n: nat)
    requires Next(e, f)
    ensures Add(p, Spread(Drop(a, k), e, n + 1)) == Add(Add(p, Term(a, k, e)), Spread(Drop(a, k + 1), f, n))
  {
    hide Add, Xtime, Top, Double, When, Spread;
    SpreadStep(p, Drop(a, k), Drop(a, k + 1), e, f, n);
  }

  lemma {:induction false} EightSteps(a: bv32, p: bv32, s: bv32,
      e0: bv32, e1: bv32, e2: bv32, e3: bv32, e4: bv32, e5: bv32, e6: bv32, e7: bv32, e8: bv32, n: nat)
    requires Eight(a, p, s, e0, e1, e2, e3, e4, e5, e6, e7)
    requires Next(e0, e1) && Next(e1, e2) && Next(e2, e3) && Next(e3, e4)
    requires Next(e4, e5) && Next(e5, e6) && Next(e6, e7) && Next(e7, e8)
    ensures Add(p, Spread(a, e0, n + 8)) == Add(s, Spread(Drop(a, 8), e8, n))
  {
    hide Add, Spread, Sum, Term, Eight, Next;
    var x0, x1, x2, x3 := Term(a, 0, e0), Term(a, 1, e1), Term(a, 2, e2), Term(a, 3, e3);
    var x4, x5, x6, x7 := Term(a, 4, e4), Term(a, 5, e5), Term(a, 6, e6), Term(a, 7, e7);
    EightTerms(a, p, s, e0, e1, e2, e3, e4, e5, e6, e7);
    SumIs(s, p, x0, x1, x2, x3, x4, x5, x6, x7);
    var p4 := Add(Add(Add(Add(p, x0), x1), x2), x3);
    SpreadTerm(p, a, 0, e0, e1, n + 7);
    SpreadTerm(Add(p, x0), a, 1, e1, e2, n + 6);
    SpreadTerm(Add(Add(p, x0), x1), a, 2, e2, e3, n + 5);
    SpreadTerm(Add(Add(Add(p, x0), x1), x2), a, 3, e3, e4, n + 4);
    SpreadTerm(p4, a, 4, e4, e5, n + 3);
    SpreadTerm(Add(p4, x4), a, 5, e5, e6, n + 2);
    SpreadTerm(Add(Add(p4, x4), x5), a, 6, e6, e7, n + 1);
    SpreadTerm(Add(Add(Add(p4, x4), x5), x6), a, 7, e7, e8, n);
  }

  lemma {:induction false} EvenPowers()
    ensures Next(0x8000_0000, 0x2000_0000) && Next(0x2000_0000, 0x0800_0000)
    ensures Next(0x0800_0000, 0x0200_0000) && Next(0x0200_0000, 0x0080_0000)
    ensures Next(0x0080_0000, 0x0020_0000) && Next(0x0020_0000, 0x0008_0000)
    ensures Next(0x0008_0000, 0x0002_0000) && Next(0x0002_0000, 0x0000_8000)
    ensures Next(0x0000_8000, 0x0000_2000) && Next(0x0000_2000, 0x0000_0800)
    ensures Next(0x0000_0800, 0x0000_0200) && Next(0x0000_0200, 0x0000_0080)
    ensures Next(0x0000_0080, 0x0000_0020) && Next(0x0000_0020, 0x0000_0008)
    ensures Next(0x0000_0008, 0x0000_0002) && Next(0x0000_0002, 0xedb8_8320)
    ensures Next(0xedb8_8320, 0x3b6e_20c8) && Next(0x3b6e_20c8, 0x0edb_8832)
    ensures Next(0x0edb_8832, 0xee0e_612c) && Next(0xee0e_612c, 0x3b83_984b)
    ensures Next(0x3b83_984b, 0x9584_24a2) && Next(0x9584_24a2, 0xc8d9_8a08)
    ensures Next(0xc8d9_8a08, 0x3236_6282) && Next(0x3236_6282, 0xe135_1b80)
    ensures Next(0xe135_1b80, 0x384d_46e0) && Next(0x384d_46e0, 0x0e13_51b8)
    ensures Next(0x0e13_51b8, 0x0384_d46e) && Next(0x0384_d46e, 0xed59_b63b)
    ensures Next(0xed59_b63b, 0xa032_af3e) && Next(0xa032_af3e, 0xc5b4_28ef)
    ensures Next(0xc5b4_28ef, 0xaa09_c88b) && Next(0xaa09_c88b, 0xb1e6_b092)
  {
  }

  lemma {:induction false} SquareIs(a: bv32, p: bv32, q: bv32, r: bv32, s: bv32)
    requires IsSquare(a, p, q, r, s)
    ensures s == Mul(a, a)
  {
    hide Mul, Add, Fits, Spread, Next, Eight, Drop;
    FitsAll(a);
    SquareFits(a, 32);
    EvenPowers();
    RawDoubles(a);
    Drops(a);
    Drops(a << 8);
    Drops(a << 16);
    Drops(a << 24);
    EightSteps(a, 0, p, 0x8000_0000, 0x2000_0000, 0x0800_0000, 0x0200_0000,
      0x0080_0000, 0x0020_0000, 0x0008_0000, 0x0002_0000, 0x0000_8000, 24);
    EightSteps(a << 8, p, q, 0x0000_8000, 0x0000_2000, 0x0000_0800, 0x0000_0200,
      0x0000_0080, 0x0000_0020, 0x0000_0008, 0x0000_0002, 0xedb8_8320, 16);
    EightSteps(a << 16, q, r, 0xedb8_8320, 0x3b6e_20c8, 0x0edb_8832, 0xee0e_612c,
      0x3b83_984b, 0x9584_24a2, 0xc8d9_8a08, 0x3236_6282, 0xe135_1b80, 8);
    EightSteps(a << 24, r, s, 0xe135_1b80, 0x384d_46e0, 0x0e13_51b8, 0x0384_d46e,
      0xed59_b63b, 0xa032_af3e, 0xc5b4_28ef, 0xaa09_c88b, 0xb1e6_b092, 0);
    SpreadNone(s, (a << 24) << 8, 0xb1e6_b092);
    AddCancels(Spread(a, ONE, 32));
  }

  lemma {:induction false} SpreadNone(s: bv32, a: bv32, e: bv32)
    ensures Add(s, Spread(a, e, 0)) == s
  {
  }

  // ----- the table -----

  /** x2n_table, eight entries to a row: x^(2^k) in place k. */
  const X2N_TABLE: seq<seq<bv32>> := [
    [0x4000_0000, 0x2000_0000, 0x0800_0000, 0x0080_0000, 0x0000_8000, 0xedb8_8320, 0xb1e6_b092, 0xa06a_2517],
    [0xed62_7dae, 0x88d1_4467, 0xd7bb_fe6a, 0xec44_7f11, 0x8e7e_a170, 0x6427_800e, 0x4d47_bae0, 0x09fe_548f],
    [0x8385_2d0f, 0x3036_2f1a, 0x7b5a_9cc3, 0x31fe_c169, 0x9fec_022a, 0x6c8d_edc4, 0x15d6_874d, 0x5fde_7a4e],
    [0xbad9_0e37, 0x2e4e_5eef, 0x4eab_a214, 0xa8a4_72c0, 0x429a_969e, 0x148d_302a, 0xc40b_a6d0, 0xc4e2_2c3c]
  ]

  lemma {:induction false} Squares0()
    ensures Mul(0x4000_0000, 0x4000_0000) == 0x2000_0000
    ensures Mul(0x2000_0000, 0x2000_0000) == 0x0800_0000
    ensures Mul(0x0800_0000, 0x0800_0000) == 0x0080_0000
    ensures Mul(0x0080_0000, 0x0080_0000) == 0x0000_8000
  {
    hide Mul;
    SquareIs(0x4000_0000, 0x2000_0000, 0x2000_0000, 0x2000_0000, 0x2000_0000);
    SquareIs(0x2000_0000, 0x0800_0000, 0x0800_0000, 0x0800_0000, 0x0800_0000);
    SquareIs(0x0800_0000, 0x0080_0000, 0x0080_0000, 0x0080_0000, 0x0080_0000);
    SquareIs(0x0080_0000, 0x0000_0000, 0x0000_8000, 0x0000_8000, 0x0000_8000);
  }

  lemma {:induction false} Squares1()
    ensures Mul(0x0000_8000, 0x0000_8000) == 0xedb8_8320
    ensures Mul(0xedb8_8320, 0xedb8_8320) == 0xb1e6_b092
    ensures Mul(0xb1e6_b092, 0xb1e6_b092) == 0xa06a_2517
    ensures Mul(0xa06a_2517, 0xa06a_2517) == 0xed62_7dae
  {
    hide Mul;
    SquareIs(0x0000_8000, 0x0000_0000, 0x0000_0000, 0xedb8_8320, 0xedb8_8320);
    SquareIs(0xedb8_8320, 0xa8a2_0000, 0xa8a2_8a80, 0xbff5_e12a, 0xb1e6_b092);
    SquareIs(0xb1e6_b092, 0x8a02_0000, 0x8a02_a828, 0x876f_c216, 0xa06a_2517);
    SquareIs(0xa06a_2517, 0x8800_0000, 0x8800_2888, 0x2169_e69a, 0xed62_7dae);
  }

  lemma {:induction false} Squares2()
    ensures Mul(0xed62_7dae, 0xed62_7dae) == 0x88d1_4467
    ensures Mul(0x88d1_4467, 0x88d1_4467) == 0xd7bb_fe6a
    ensures Mul(0xd7bb_fe6a, 0xd7bb_fe6a) == 0xec44_7f11
    ensures Mul(0xec44_7f11, 0xec44_7f11) == 0x8e7e_a170
  {
    hide Mul;
    SquareIs(0xed62_7dae, 0xa8a2_0000, 0xa8a2_2808, 0xef28_3fb5, 0x88d1_4467);
    SquareIs(0x88d1_4467, 0x8080_0000, 0x8080_a202, 0x2e6a_a668, 0xd7bb_fe6a);
    SquareIs(0xd7bb_fe6a, 0xa22a_0000, 0xa22a_8a8a, 0xf2f7_f69d, 0xec44_7f11);
    SquareIs(0xec44_7f11, 0xa8a0_0000, 0xa8a0_2020, 0x27f3_bd95, 0x8e7e_a170);
  }

  lemma {:induction false} Squares3()
    ensures Mul(0x8e7e_a170, 0x8e7e_a170) == 0x6427_800e
    ensures Mul(0x6427_800e, 0x6427_800e) == 0x4d47_bae0
    ensures Mul(0x4d47_bae0, 0x4d47_bae0) == 0x09fe_548f
    ensures Mul(0x09fe_548f, 0x09fe_548f) == 0x8385_2d0f
  {
    hide Mul;
    SquareIs(0x8e7e_a170, 0x80a8_0000, 0x80a8_2aa8, 0x51fd_4338, 0x6427_800e);
    SquareIs(0x6427_800e, 0x2820_0000, 0x2820_082a, 0xc598_8b0a, 0x4d47_bae0);
    SquareIs(0x4d47_bae0, 0x20a2_0000, 0x20a2_202a, 0xde95_5857, 0x09fe_548f);
    SquareIs(0x09fe_548f, 0x0082_0000, 0x0082_aaa8, 0x4066_cfee, 0x8385_2d0f);
  }

  lemma {:induction false} Squares4()
    ensures Mul(0x8385_2d0f, 0x8385_2d0f) == 0x3036_2f1a
    ensures Mul(0x3036_2f1a, 0x3036_2f1a) == 0x7b5a_9cc3
    ensures Mul(0x7b5a_9cc3, 0x7b5a_9cc3) == 0x31fe_c169
    ensures Mul(0x31fe_c169, 0x31fe_c169) == 0x9fec_022a
  {
    hide Mul;
    SquareIs(0x8385_2d0f, 0x800a_0000, 0x800a_8022, 0x12e0_d67b, 0x3036_2f1a);
    SquareIs(0x3036_2f1a, 0x0a00_0000, 0x0a00_0a28, 0x5033_d679, 0x7b5a_9cc3);
    SquareIs(0x7b5a_9cc3, 0x2a8a_0000, 0x2a8a_2288, 0x873b_7c6d, 0x31fe_c169);
    SquareIs(0x31fe_c169, 0x0a02_0000, 0x0a02_aaa8, 0xeee2_6bc2, 0x9fec_022a);
  }

  lemma {:induction false} Squares5()
    ensures Mul(0x9fec_022a, 0x9fec_022a) == 0x6c8d_edc4
    ensures Mul(0x6c8d_edc4, 0x6c8d_edc4) == 0x15d6_874d
    ensures Mul(0x15d6_874d, 0x15d6_874d) == 0x5fde_7a4e
    ensures Mul(0x5fde_7a4e, 0x5fde_7a4e) == 0xbad9_0e37
  {
    hide Mul;
    SquareIs(0x9fec_022a, 0x82aa_0000, 0x82aa_a8a0, 0x4a73_22a8, 0x6c8d_edc4);
    SquareIs(0x6c8d_edc4, 0x28a0_0000, 0x28a0_80a2, 0x6c9c_7513, 0x15d6_874d);
    SquareIs(0x15d6_874d, 0x0222_0000, 0x0222_a228, 0x80f1_ed20, 0x5fde_7a4e);
    SquareIs(0x5fde_7a4e, 0x22aa_0000, 0x22aa_a2a8, 0x0a4b_793d, 0xbad9_0e37);
  }

  lemma {:induction false} Squares6()
    ensures Mul(0xbad9_0e37, 0xbad9_0e37) == 0x2e4e_5eef
    ensures Mul(0x2e4e_5eef, 0x2e4e_5eef) == 0x4eab_a214
    ensures Mul(0x4eab_a214, 0x4eab_a214) == 0xa8a4_72c0
    ensures Mul(0xa8a4_72c0, 0xa8a4_72c0) == 0x429a_969e
  {
    hide Mul;
    SquareIs(0xbad9_0e37, 0x8a88_0000, 0x8a88_a282, 0xec56_9463, 0x2e4e_5eef);
    SquareIs(0x2e4e_5eef, 0x08a8_0000, 0x08a8_20a8, 0xbb16_57ad, 0x4eab_a214);
    SquareIs(0x4eab_a214, 0x20a8_0000, 0x20a8_888a, 0x0b12_0990, 0xa8a4_72c0);
    SquareIs(0xa8a4_72c0, 0x8880_0000, 0x8880_8820, 0x9be2_cbfe, 0x429a_969e);
  }

  lemma {:induction false} Squares7()
    ensures Mul(0x429a_969e, 0x429a_969e) == 0x148d_302a
    ensures Mul(0x148d_302a, 0x148d_302a) == 0xc40b_a6d0
    ensures Mul(0xc40b_a6d0, 0xc40b_a6d0) == 0xc4e2_2c3c
    ensures Mul(0xc4e2_2c3c, 0xc4e2_2c3c) == 0x4000_0000
  {
    hide Mul;
    SquareIs(0x429a_969e, 0x2008_0000, 0x2008_8288, 0x7ee3_ce2e, 0x148d_302a);
    SquareIs(0x148d_302a, 0x0220_0000, 0x0220_80a2, 0xe2f5_69bc, 0xc40b_a6d0);
    SquareIs(0xc40b_a6d0, 0xa020_0000, 0xa020_008a, 0x1e1e_a532, 0xc4e2_2c3c);
    SquareIs(0xc4e2_2c3c, 0xa020_0000, 0xa020_a808, 0x00fc_9cd3, 0x4000_0000);
  }

  function Entry(k: nat): bv32
    requires k < 32
  {
    X2N_TABLE[k / 8][k % 8]
  }

  lemma {:induction false} Entries0()
    ensures Entry(0) == 0x4000_0000 && Entry(1) == 0x2000_0000 && Entry(2) == 0x0800_0000 && Entry(3) == 0x0080_0000
    ensures Entry(4) == 0x0000_8000 && Entry(5) == 0xedb8_8320 && Entry(6) == 0xb1e6_b092 && Entry(7) == 0xa06a_2517
  {
  }

  lemma {:induction false} Entries1()
    ensures Entry(8) == 0xed62_7dae && Entry(9) == 0x88d1_4467 && Entry(10) == 0xd7bb_fe6a && Entry(11) == 0xec44_7f11
    ensures Entry(12) == 0x8e7e_a170 && Entry(13) == 0x6427_800e && Entry(14) == 0x4d47_bae0 && Entry(15) == 0x09fe_548f
  {
  }

  lemma {:induction false} Entries2()
    ensures Entry(16) == 0x8385_2d0f && Entry(17) == 0x3036_2f1a && Entry(18) == 0x7b5a_9cc3 && Entry(19) == 0x31fe_c169
    ensures Entry(20) == 0x9fec_022a && Entry(21) == 0x6c8d_edc4 && Entry(22) == 0x15d6_874d && Entry(23) == 0x5fde_7a4e
  {
  }

  lemma {:induction false} Entries3()
    ensures Entry(24) == 0xbad9_0e37 && Entry(25) == 0x2e4e_5eef && Entry(26) == 0x4eab_a214 && Entry(27) == 0xa8a4_72c0
    ensures Entry(28) == 0x429a_969e && Entry(29) == 0x148d_302a && Entry(30) == 0xc40b_a6d0 && Entry(31) == 0xc4e2_2c3c
  {
  }

  /** Every entry is the square of the one before, and the first that of the last. */
  lemma {:induction false} TableSquares(k: nat)
    requires k < 32
    ensures Mul(Entry(k), Entry(k)) == Entry((k + 1) % 32)
  {
    hide Mul, Entry;
    Entries0();
    Entries1();
    Entries2();
    Entries3();
    if k < 4 {
      Squares0();
    } else if k < 8 {
      Squares1();
    } else if k < 12 {
      Squares2();
    } else if k < 16 {
      Squares3();
    } else if k < 20 {
      Squares4();
    } else if k < 24 {
      Squares5();
    } else if k < 28 {
      Squares6();
    } else {
      Squares7();
    }
  }

  /** 2^k. */
  function Two(k: nat): nat {
    if k == 0 then 1 else Two(k - 1) + Two(k - 1)
  }

  /** The table may be walked around: x^(2^32) is x. */
  lemma {:induction false} TableMeans(k: nat)
    ensures Entry(k % 32) == XPow(Two(k)) != 0
  {
    hide Mul, Times, Entry, XPow;
    XPowNonZero(Two(k));
    if k == 0 {
      FirstEntry();
    } else {
      TableMeans(k - 1);
      TableSquares((k - 1) % 32);
      XPowAdd(Two(k - 1), Two(k - 1));
      NextIndex(k);
    }
  }

  lemma {:induction false} NextIndex(k: nat)
    requires k > 0
    ensures ((k - 1) % 32 + 1) % 32 == k % 32
  {
  }

  lemma {:induction false} FirstEntry()
    ensures Entry(0) == XPow(1)
  {
    assert Times(ONE, 0) == ONE;
  }

  // ----- multmodp -----

  lemma {:induction false} RawBit(a: bv32, k: bv32)
    requires k < 32
    ensures a & (0x8000_0000 as bv32 >> k) == 0 ==> (a << k) & 0x8000_0000 == 0
    ensures (a << k) & 0x8000_0000 == 0 ==> a & (0x8000_0000 as bv32 >> k) == 0
  {
  }

  lemma {:induction false} RawRest(a: bv32, k: bv32)
    requires k < 32
    ensures a & ((0x8000_0000 as bv32 >> k) - 1) == 0 <==> (a << k) << 1 == 0
  {
  }

  lemma {:induction false} RawShift(a: bv32, k: bv32)
    requires k < 32
    ensures (a << k) << 1 == a << (k + 1)
    ensures (0x8000_0000 as bv32 >> k) >> 1 == 0x8000_0000 as bv32 >> (k + 1)
  {
  }

  lemma {:induction false} RawGone(a: bv32, k: bv32)
    requires k == 32
    ensures a << k == 0
  {
  }

  /** The mask `m` of multmodp's loop stands at place k, and `c` is what of `a` is still to be done. */
  predicate AtPlace(a: bv32, m: bv32, c: bv32, k: bv32) {
    k <= 32 && m == ONE >> k && c == a << k
  }

  lemma {:induction false} MaskMeans(a: bv32, m: bv32, c: bv32, k: bv32)
    requires AtPlace(a, m, c, k) && c != 0
    ensures a & m != 0 <==> Top(c)
    ensures a & (m - 1) == 0 <==> Double(c) == 0
    ensures AtPlace(a, m >> 1, Double(c), k + 1)
  {
    if k == 32 {
      RawGone(a, k);
    } else {
      RawBit(a, k);
      RawRest(a, k);
      RawShift(a, k);
    }
  }

  lemma {:induction false} DoubleNone(c: bv32)
    requires !Top(c) && c != 0
    ensures Double(c) != 0
  {
    RawNone(c);
  }

  lemma {:induction false} RawNone(c: bv32)
    ensures c & 0x8000_0000 == 0 && c != 0 ==> c << 1 != 0
  {
  }

  lemma {:induction false} Start(a: bv32, b: bv32)
    ensures AtPlace(a, ONE, a, 0) && Fits(a, 32) && Add(0, MulFirst(a, b, 32)) == Mul(a, b)
  {
    hide MulFirst, Fits;
    FitsAll(a);
    AddCancels(Mul(a, b));
  }

  lemma {:induction false} NotDone(c: bv32, n: nat)
    requires n <= 32 && Fits(c, n) && c != 0
    ensures n > 0
  {
    hide Fits;
    FitsAll(c);
  }

  lemma {:induction false} MulFirstStep(p: bv32, c: bv32, d: bv32, n: nat)
    requires 0 < n
    ensures Add(p, MulFirst(c, d, n)) == Add(if Top(c) then Add(p, d) else p, MulFirst(Double(c), Xtime(d), n - 1))
  {
    hide Add, Top, Double, Xtime;
    AddAssociates(p, When(Top(c), d), MulFirst(Double(c), Xtime(d), n - 1));
    AddCancels(p);
  }

  lemma {:induction false} NoneLeft(p: bv32, d: bv32, n: nat)
    ensures Add(p, MulFirst(0, d, n)) == p
  {
    hide Add, MulFirst;
    MulFirstZero(d, n);
    AddCancels(p);
  }

  /** multmodp: the product, for any `a` but zero, for which its loop would not end. */
  method MultModP(a: bv32, b: bv32) returns (p: bv32)
    requires a != 0
    ensures p == Mul(a, b)
  {
    hide Mul, MulFirst, Xtime, Add, Fits, Top, Double, AtPlace;
    var m := ONE;
    p := 0;
    var d := b;
    ghost var c, k, n := a, 0 as bv32, 32;
    Start(a, b);
    while true
      invariant AtPlace(a, m, c, k) && c != 0
      invariant 0 <= n <= 32 && Fits(c, n)
      invariant Add(p, MulFirst(c, d, n)) == Mul(a, b)
      decreases n
    {
      MaskMeans(a, m, c, k);
      NotDone(c, n);
      MulFirstStep(p, c, d, n);
      FitsDouble(c, n);
      if a & m != 0 {
        p := Add(p, d);
        if a & (m - 1) == 0 {
          NoneLeft(p, Xtime(d), n - 1);
          break;
        }
      } else {
        DoubleNone(c);
      }
      m := m >> 1;
      d := Xtime(d);
      c, k, n := Double(c), k + 1, n - 1;
    }
  }

  // ----- x2nmodp -----

  /** n * 2^k, one bit of `n` at a time. */
  function Scaled(n: nat, k: nat): nat
    decreases n
  {
    if n == 0 then 0 else (if n % 2 == 1 then Two(k) else 0) + Scaled(n / 2, k + 1)
  }

  lemma {:induction false} ScaledIs(n: nat, k: nat)
    ensures Scaled(n, k) == n * Two(k)
    decreases n
  {
    if n > 0 {
      ScaledIs(n / 2, k + 1);
      Halves(n, Two(k));
    }
  }

  lemma {:induction false} Halves(n: nat, t: nat)
    ensures n * t == (n / 2) * (t + t) + if n % 2 == 1 then t else 0
  {
    var h := n / 2;
    assert h * (t + t) == h * t + h * t;
    assert (h + h) * t == h * t + h * t;
    assert n == h + h + n % 2;
    assert (h + h + 1) * t == (h + h) * t + t;
  }

  /** x2nmodp: x^(n * 2^k), which is never zero. `k` does not wrap: the table is used modulo 32 only. */
  method X2NModP(n: nat, k: nat) returns (p: bv32)
    ensures p == XPow(n * Two(k)) != 0
  {
    hide Mul, Times, Entry, XPow, Two;
    p := ONE;
    var n', k' := n, k;
    ghost var e: nat := 0;
    ScaledIs(n, k);
    XPowStart();
    while n' != 0
      invariant p == XPow(e) && e + Scaled(n', k') == Scaled(n, k)
      decreases n'
    {
      if n' % 2 == 1 {
        TableMeans(k');
        XPowAdd(Two(k'), e);
        p := MultModP(Entry(k' % 32), p);
        e := Two(k') + e;
      }
      n', k' := n' / 2, k' + 1;
    }
    XPowNonZero(e);
  }

  lemma {:induction false} XPowStart()
    ensures XPow(0) == ONE
  {
  }
}
