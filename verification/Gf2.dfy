// Polynomials over GF(2) modulo the CRC polynomial, as zlib's crc32.c represents them: bit 31 is the
// coefficient of x^0, addition is exclusive or, and multmodp multiplies.

module Gf2 {
  const POLY: bv32 := 0xedb8_8320
  const ONE: bv32 := 0x8000_0000

  // The bit operations as functions, so that proofs can treat them as unknown.

  function Add(a: bv32, b: bv32): bv32 {
    a ^ b
  }

  function Half(b: bv32): bv32 {
    b >> 1
  }

  predicate Odd(b: bv32) {
    b & 1 == 1
  }

  function Double(a: bv32): bv32 {
    a << 1
  }

  predicate Top(a: bv32) {
    a & ONE != 0
  }

  /** Multiplication by x: a shift, and the reduction by the polynomial when x^32 appears. */
  function Xtime(b: bv32): bv32 {
    if Odd(b) then Add(Half(b), POLY) else Half(b)
  }

  // ----- facts about the bits -----

  lemma {:induction false} AddCommutes(a: bv32, b: bv32)
    ensures Add(a, b) == Add(b, a)
  {
  }

  lemma {:induction false} AddAssociates(a: bv32, b: bv32, c: bv32)
    ensures Add(a, Add(b, c)) == Add(Add(a, b), c)
  {
  }

  lemma {:induction false} AddCancels(a: bv32)
    ensures Add(a, a) == 0 && Add(a, 0) == a && Add(0, a) == a
  {
  }

  lemma {:induction false} HalfAdd(a: bv32, b: bv32)
    ensures Half(Add(a, b)) == Add(Half(a), Half(b)) && Half(0) == 0
  {
    RawHalf(a, b);
  }

  lemma {:induction false} RawHalf(a: bv32, b: bv32)
    ensures (a ^ b) >> 1 == (a >> 1) ^ (b >> 1)
  {
  }

  lemma {:induction false} OddAdd(a: bv32, b: bv32)
    ensures Odd(Add(a, b)) <==> Odd(a) != Odd(b)
    ensures !Odd(0)
  {
  }

  lemma {:induction false} DoubleAdd(a: bv32, b: bv32)
    ensures Double(Add(a, b)) == Add(Double(a), Double(b))
  {
    RawDouble(a, b);
  }

  lemma {:induction false} RawDouble(a: bv32, b: bv32)
    ensures (a ^ b) << 1 == (a << 1) ^ (b << 1)
  {
  }

  lemma {:induction false} TopAdd(a: bv32, b: bv32)
    ensures Top(Add(a, b)) <==> Top(a) != Top(b)
  {
    RawTop(a, b);
  }

  lemma {:induction false} RawTop(a: bv32, b: bv32)
    ensures (a ^ b) & 0x8000_0000 != 0 <==> ((a & 0x8000_0000 != 0) != (b & 0x8000_0000 != 0))
  {
  }

  lemma {:induction false} Constants()
    ensures !Top(0) && Top(ONE) && Double(0) == 0 && Double(ONE) == 0 && Half(0) == 0 && !Odd(0) && !Odd(ONE)
  {
  }

  lemma {:induction false} DoubleEven(a: bv32)
    ensures !Odd(Double(a))
  {
  }

  lemma {:induction false} RawSplit(a: bv32)
    ensures a == (a & 0x8000_0000) ^ ((a << 1) >> 1)
    ensures a & 0x8000_0000 == 0 || a & 0x8000_0000 == 0x8000_0000
  {
  }

  lemma {:induction false} HalfDouble(a: bv32)
    ensures a == Add(if Top(a) then ONE else 0, Half(Double(a)))
  {
    RawSplit(a);
  }

  // ----- multiplication by x -----

  lemma {:induction false} XtimeZero()
    ensures Xtime(0) == 0
  {
  }

  lemma {:induction false} XtimeAdd(a: bv32, b: bv32)
    ensures Xtime(Add(a, b)) == Add(Xtime(a), Xtime(b))
  {
    hide Add, Half, Odd;
    HalfAdd(a, b);
    OddAdd(a, b);
    var p, q := Half(a), Half(b);
    Regroup(p, POLY, q, POLY);
    AddCancels(POLY);
    AddCancels(Add(p, q));
    AddAssociates(p, q, POLY);
    AddAssociates(p, POLY, q);
    AddCommutes(q, POLY);
  }

  /** (a + b) + (c + d) == (a + c) + (b + d). */
  lemma {:induction false} Regroup(a: bv32, b: bv32, c: bv32, d: bv32)
    ensures Add(Add(a, b), Add(c, d)) == Add(Add(a, c), Add(b, d))
  {
    hide Add;
    AddAssociates(a, b, Add(c, d));
    AddAssociates(b, c, d);
    AddCommutes(b, c);
    AddAssociates(c, b, d);
    AddAssociates(a, c, Add(b, d));
  }

  lemma {:induction false} XtimeNonZero(b: bv32)
    requires b != 0
    ensures Xtime(b) != 0
  {
    RawNonZero(b);
  }

  lemma {:induction false} RawNonZero(b: bv32)
    ensures (b >> 1) ^ 0xedb8_8320 != 0
    ensures b & 1 != 1 && b != 0 ==> b >> 1 != 0
  {
  }

  /** The constant term and the rest. */
  lemma {:induction false} Split(a: bv32)
    ensures a == Add(if Top(a) then ONE else 0, Xtime(Double(a)))
  {
    hide Add, Half, Odd, Top, Double;
    DoubleEven(a);
    HalfDouble(a);
  }

  // ----- the product -----

  /** The first `n` coefficients of `a`, lowest power first, times `b`. */
  function MulFirst(a: bv32, b: bv32, n: nat): bv32
    decreases n
  {
    if n == 0 then 0 else Add(When(Top(a), b), MulFirst(Double(a), Xtime(b), n - 1))
  }

  /** The product: every coefficient x^k of `a` contributes x^k times `b`. */
  function Mul(a: bv32, b: bv32): bv32 {
    MulFirst(a, b, 32)
  }

  /** All ones in the places behind the first `n`. */
  function Behind(n: nat): bv32
    decreases 32 - n
  {
    if n >= 32 then 0 else Double(Behind(n + 1)) | 1
  }

  /** `a` has no coefficient behind the first `n`. */
  predicate Fits(a: bv32, n: nat) {
    a & Behind(n) == 0
  }

  lemma {:induction false} RawBehind(a: bv32, m: bv32)
    ensures a & m == 0 ==> (a << 1) & ((m << 1) | 1) == 0
  {
  }

  lemma {:induction false} FitsDouble(a: bv32, n: nat)
    requires 0 < n <= 32 && Fits(a, n)
    ensures Fits(Double(a), n - 1)
  {
    RawBehind(a, Behind(n));
  }

  lemma {:induction false} FitsAll(a: bv32)
    ensures Fits(a, 32) && (Fits(a, 0) ==> a == 0)
  {
    BehindZero();
  }

  lemma {:induction false} BehindZero()
    ensures Behind(0) == 0xFFFF_FFFF
  {
    assert Behind(24) == 0xFF;
    assert Behind(16) == 0xFFFF;
    assert Behind(8) == 0xFF_FFFF;
  }

  /** `b`, or nothing when the coefficient is 0. */
  function When(t: bool, b: bv32): bv32 {
    if t then b else 0
  }

  lemma {:induction false} WhenAdd(t: bool, a: bv32, b: bv32)
    ensures When(t, Add(a, b)) == Add(When(t, a), When(t, b))
    ensures When(t, Xtime(a)) == Xtime(When(t, a))
  {
    hide Add, Xtime;
    AddCancels(0);
    XtimeZero();
  }

  lemma {:induction false} WhenEither(t: bool, u: bool, b: bv32)
    ensures When(t != u, b) == Add(When(t, b), When(u, b))
  {
    hide Add;
    AddCancels(b);
    AddCancels(0);
  }

  // ----- the product is a commutative ring's -----

  lemma {:induction false} MulFirstRight(a: bv32, b: bv32, c: bv32, n: nat)
    ensures MulFirst(a, Add(b, c), n) == Add(MulFirst(a, b, n), MulFirst(a, c, n))
    decreases n
  {
    hide Add, Xtime, Top, Double, When;
    if n == 0 {
      AddCancels(0);
    } else {
      var d := Double(a);
      XtimeAdd(b, c);
      MulFirstRight(d, Xtime(b), Xtime(c), n - 1);
      WhenAdd(Top(a), b, c);
      Regroup(When(Top(a), b), When(Top(a), c), MulFirst(d, Xtime(b), n - 1), MulFirst(d, Xtime(c), n - 1));
    }
  }

  lemma {:induction false} MulFirstLeft(a: bv32, a': bv32, b: bv32, n: nat)
    ensures MulFirst(Add(a, a'), b, n) == Add(MulFirst(a, b, n), MulFirst(a', b, n))
    decreases n
  {
    hide Add, Xtime, Top, Double, When;
    if n == 0 {
      AddCancels(0);
    } else {
      var c := Xtime(b);
      DoubleAdd(a, a');
      TopAdd(a, a');
      MulFirstLeft(Double(a), Double(a'), c, n - 1);
      WhenEither(Top(a), Top(a'), b);
      Regroup(When(Top(a), b), When(Top(a'), b), MulFirst(Double(a), c, n - 1), MulFirst(Double(a'), c, n - 1));
    }
  }

  lemma {:induction false} MulFirstXtime(a: bv32, b: bv32, n: nat)
    ensures MulFirst(a, Xtime(b), n) == Xtime(MulFirst(a, b, n))
    decreases n
  {
    hide Add, Xtime, Top, Double, When;
    if n == 0 {
      XtimeZero();
    } else {
      MulFirstXtime(Double(a), Xtime(b), n - 1);
      WhenAdd(Top(a), b, b);
      XtimeAdd(When(Top(a), b), MulFirst(Double(a), Xtime(b), n - 1));
    }
  }

  /** Coefficients that are not there do not count. */
  lemma {:induction false} MulFirstFits(a: bv32, b: bv32, n: nat)
    requires n <= 32 && Fits(a, n)
    ensures MulFirst(a, b, n) == MulFirst(a, b, n + 1)
    decreases n
  {
    hide Add, Xtime, Top, Double, Fits;
    if n == 0 {
      FitsAll(a);
      Constants();
      AddCancels(0);
    } else {
      FitsDouble(a, n);
      MulFirstFits(Double(a), Xtime(b), n - 1);
    }
  }

  /** One coefficient of the product at a time. */
  lemma {:induction false} MulStep(a: bv32, b: bv32)
    ensures Mul(a, b) == Add(When(Top(a), b), Xtime(Mul(Double(a), b)))
  {
    hide Add, Xtime, Top, Double, When, Fits;
    FitsAll(a);
    FitsDouble(a, 32);
    MulFirstFits(Double(a), Xtime(b), 31);
    MulFirstXtime(Double(a), b, 32);
  }

  lemma {:induction false} MulAdd(a: bv32, b: bv32, c: bv32)
    ensures Mul(a, Add(b, c)) == Add(Mul(a, b), Mul(a, c))
    ensures Mul(Add(a, b), c) == Add(Mul(a, c), Mul(b, c))
  {
    hide Add, MulFirst;
    MulFirstRight(a, b, c, 32);
    MulFirstLeft(a, b, c, 32);
  }

  lemma {:induction false} MulXtime(a: bv32, b: bv32)
    ensures Mul(a, Xtime(b)) == Xtime(Mul(a, b))
  {
    hide Xtime, MulFirst;
    MulFirstXtime(a, b, 32);
  }

  lemma {:induction false} MulFirstZero(b: bv32, n: nat)
    ensures MulFirst(0, b, n) == 0
    decreases n
  {
    hide Add, Xtime, Top, Double;
    Constants();
    AddCancels(0);
    if n > 0 {
      MulFirstZero(Xtime(b), n - 1);
    }
  }

  lemma {:induction false} MulFirstOne(a: bv32, n: nat)
    requires n <= 32 && Fits(a, n)
    ensures MulFirst(a, ONE, n) == a
    decreases n
  {
    hide Add, Xtime, Top, Double, Fits;
    if n == 0 {
      FitsAll(a);
    } else {
      FitsDouble(a, n);
      MulFirstOne(Double(a), n - 1);
      MulFirstXtime(Double(a), ONE, n - 1);
      Split(a);
    }
  }

  lemma {:induction false} MulUnits(a: bv32)
    ensures Mul(a, ONE) == a && Mul(ONE, a) == a
    ensures Mul(a, 0) == 0 && Mul(0, a) == 0
  {
    hide MulFirst, Add, Top, Double, Fits;
    FitsAll(a);
    MulFirstOne(a, 32);
    MulFirstZero(a, 32);
    Constants();
    MulStep(ONE, a);
    XtimeZero();
    AddCancels(a);
    AddCancels(Mul(a, 0));
    AddCancels(0);
    MulAdd(a, 0, 0);
  }

  lemma {:induction false} MulCommutesFits(a: bv32, b: bv32, n: nat)
    requires n <= 32 && Fits(a, n)
    ensures Mul(a, b) == Mul(b, a)
    decreases n
  {
    hide Add, Xtime, Top, Double, Fits, Mul;
    MulUnits(b);
    if n == 0 {
      FitsAll(a);
    } else {
      var d := Double(a);
      FitsDouble(a, n);
      MulCommutesFits(d, b, n - 1);
      MulStep(a, b);
      Split(a);
      MulAdd(b, if Top(a) then ONE else 0, Xtime(d));
      MulXtime(b, d);
    }
  }

  lemma {:induction false} MulCommutes(a: bv32, b: bv32)
    ensures Mul(a, b) == Mul(b, a)
  {
    hide Mul, Fits;
    FitsAll(a);
    MulCommutesFits(a, b, 32);
  }

  lemma {:induction false} XtimeMul(a: bv32, b: bv32)
    ensures Mul(Xtime(a), b) == Xtime(Mul(a, b))
  {
    hide Mul, Xtime;
    MulCommutes(Xtime(a), b);
    MulCommutes(a, b);
    MulXtime(b, a);
  }

  lemma {:induction false} MulAssociatesFits(a: bv32, b: bv32, c: bv32, n: nat)
    requires n <= 32 && Fits(a, n)
    ensures Mul(Mul(a, b), c) == Mul(a, Mul(b, c))
    decreases n
  {
    hide Add, Xtime, Top, Double, Fits, Mul;
    MulUnits(b);
    MulUnits(c);
    MulUnits(Mul(b, c));
    if n == 0 {
      FitsAll(a);
    } else {
      var d := Double(a);
      FitsDouble(a, n);
      MulAssociatesFits(d, b, c, n - 1);
      MulStep(a, b);
      MulStep(a, Mul(b, c));
      MulAdd(When(Top(a), b), Xtime(Mul(d, b)), c);
      XtimeMul(Mul(d, b), c);
    }
  }

  lemma {:induction false} MulAssociates(a: bv32, b: bv32, c: bv32)
    ensures Mul(Mul(a, b), c) == Mul(a, Mul(b, c))
  {
    hide Mul, Fits;
    FitsAll(a);
    MulAssociatesFits(a, b, c, 32);
  }
}
