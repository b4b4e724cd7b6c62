// Adler-32 as zlib's adler32.c computes it: sums reduced only every NMAX bytes, reductions without division,
// and the combination of two checksums.

/** The definition of section 2.2 of RFC 1950 and the sums in closed form. */
module AdlerSums {
  import opened Bytes

  const BASE := 65521

  datatype Sums = Sums(s1: nat, s2: nat)

  /** One byte: both sums are reduced at once. */
  function Step(p: Sums, b: byte): Sums {
    var a := Mod(p.s1 + b);
    Sums(a, Mod(p.s2 + a))
  }

  function Mod(x: nat): (r: nat)
    ensures r < BASE
  {
    x % BASE
  }

  /** The sums after the bytes of `s`, byte by byte. */
  function Update(p: Sums, s: seq<byte>): Sums {
    if s == [] then p else Step(Update(p, s[..|s| - 1]), s[|s| - 1])
  }

  function Reduced(p: Sums): Sums {
    Sums(Mod(p.s1), Mod(p.s2))
  }

  /** The same sums without any reduction. */
  function Add(p: Sums, b: byte): Sums {
    Sums(p.s1 + b, p.s2 + p.s1 + b)
  }

  function AddAll(p: Sums, s: seq<byte>): Sums {
    if s == [] then p else Add(AddAll(p, s[..|s| - 1]), s[|s| - 1])
  }

  lemma {:induction false} ModSum(x: nat, y: nat)
    ensures Mod(Mod(x) + y) == Mod(x + y) && Mod(Mod(x)) == Mod(x)
  {
  }

  lemma {:induction false} ModSame(x: nat, y: nat, u: nat, v: nat)
    requires Mod(x) == Mod(u) && Mod(y) == Mod(v)
    ensures Mod(x + y) == Mod(u + v)
  {
    hide Mod;
    ModSum(x, y);
    ModSum(u, v);
    ModSum(y, Mod(x));
    ModSum(v, Mod(u));
  }

  /** A step is an unreduced step, reduced. */
  lemma {:induction false} StepIs(p: Sums, b: byte)
    ensures Step(p, b) == Reduced(Add(p, b))
  {
    hide Mod;
    ModSum(p.s1 + b, p.s2);
  }

  lemma {:induction false} AddSame(p: Sums, q: Sums, b: byte)
    requires Reduced(p) == Reduced(q)
    ensures Reduced(Add(p, b)) == Reduced(Add(q, b))
  {
    hide Mod;
    ModSame(p.s1, b, q.s1, b);
    ModSame(p.s2, p.s1 + b, q.s2, q.s1 + b);
  }

  lemma {:induction false} ReducedTwice(p: Sums)
    ensures Reduced(Reduced(p)) == Reduced(p)
  {
  }

  /** Reducing late changes nothing. */
  lemma {:induction false} Deferred(p: Sums, s: seq<byte>)
    ensures Reduced(AddAll(p, s)) == Reduced(Update(p, s))
  {
    hide Reduced, Add, Step;
    if s != [] {
      var t, b := s[..|s| - 1], s[|s| - 1];
      Deferred(p, t);
      StepIs(Update(p, t), b);
      AddSame(AddAll(p, t), Update(p, t), b);
      ReducedTwice(Add(Update(p, t), b));
    }
  }

  /** A reduction in the middle changes nothing either. */
  lemma {:induction false} DeferredAgain(p: Sums, q: Sums, s: seq<byte>)
    requires Reduced(p) == Reduced(q)
    ensures Reduced(AddAll(p, s)) == Reduced(AddAll(q, s))
  {
    hide Reduced, Add;
    if s != [] {
      DeferredAgain(p, q, s[..|s| - 1]);
      AddSame(AddAll(p, s[..|s| - 1]), AddAll(q, s[..|s| - 1]), s[|s| - 1]);
    }
  }

  lemma {:induction false} AddConcat(p: Sums, s: seq<byte>, t: seq<byte>)
    ensures AddAll(p, s + t) == AddAll(AddAll(p, s), t)
  {
    if t == [] {
      assert s + t == s;
    } else {
      assert (s + t)[..|s + t| - 1] == s + t[..|t| - 1];
      AddConcat(p, s, t[..|t| - 1]);
    }
  }

  /** 1 + 2 + ... + n. */
  function Triangle(n: nat): nat {
    if n == 0 then 0 else n + Triangle(n - 1)
  }

  lemma {:induction false} TriangleIs(n: nat)
    ensures 2 * Triangle(n) == n * (n + 1)
  {
    if n > 0 {
      TriangleIs(n - 1);
    }
  }

  /** The largest sums `n` bytes can make. */
  function Worst(p: Sums, n: nat): Sums {
    Sums(p.s1 + 255 * n, p.s2 + n * p.s1 + 255 * Triangle(n))
  }

  lemma {:induction false} WorstStep(p: Sums, n: nat)
    ensures Worst(p, n + 1).s1 == Worst(p, n).s1 + 255
    ensures Worst(p, n + 1).s2 == Worst(p, n).s2 + Worst(p, n).s1 + 255
  {
  }

  lemma {:induction false} Bounded(p: Sums, s: seq<byte>)
    ensures AddAll(p, s).s1 <= Worst(p, |s|).s1 && AddAll(p, s).s2 <= Worst(p, |s|).s2
  {
    hide Worst;
    if s != [] {
      Bounded(p, s[..|s| - 1]);
      WorstStep(p, |s| - 1);
    } else {
      WorstNone(p);
    }
  }

  lemma {:induction false} WorstNone(p: Sums)
    ensures Worst(p, 0) == p
  {
  }

  /** The bound is attained: bytes of 255 reach it. */
  lemma {:induction false} Attained(p: Sums, s: seq<byte>)
    requires forall i :: 0 <= i < |s| ==> s[i] == 255
    ensures AddAll(p, s) == Worst(p, |s|)
  {
    hide Worst;
    if s != [] {
      Attained(p, s[..|s| - 1]);
      WorstStep(p, |s| - 1);
    } else {
      WorstNone(p);
    }
  }

  lemma {:induction false} WorstGrows(p: Sums, q: Sums, m: nat, n: nat)
    requires p.s1 <= q.s1 && p.s2 <= q.s2 && m <= n
    ensures Worst(p, m).s1 <= Worst(q, n).s1 && Worst(p, m).s2 <= Worst(q, n).s2
    decreases n
  {
    hide Worst;
    if m == n {
      if n == 0 {
        WorstNone(p);
        WorstNone(q);
      } else {
        WorstGrows(p, q, n - 1, n - 1);
        WorstStep(p, n - 1);
        WorstStep(q, n - 1);
      }
    } else {
      WorstGrows(p, q, m, n - 1);
      WorstStep(q, n - 1);
    }
  }

  /** NMAX: from reduced sums, no 5552 bytes exceed 32 bits, and some 5553 do. */
  lemma {:induction false} NmaxIsLargest(n: nat)
    ensures (forall p: Sums, s: seq<byte> :: |s| == n && p.s1 < BASE && p.s2 < BASE ==> AddAll(p, s).s2 <= 0xffff_ffff) <==> n <= 5552
  {
    WorstFits(n);
    var top := Sums(BASE - 1, BASE - 1);
    forall p: Sums, s: seq<byte> | |s| == n <= 5552 && p.s1 < BASE && p.s2 < BASE
      ensures AddAll(p, s).s2 <= 0xffff_ffff
    {
      Bounded(p, s);
      WorstGrows(p, top, n, n);
    }
    var full: seq<byte> := seq(n, _ => 255);
    Attained(top, full);
    assert |full| == n && top.s1 < BASE && top.s2 < BASE && AddAll(top, full).s2 == Worst(top, n).s2;
  }

  lemma {:induction false} WorstFits(n: nat)
    ensures Worst(Sums(BASE - 1, BASE - 1), n).s2 <= 0xffff_ffff <==> n <= 5552
  {
    var p := Sums(BASE - 1, BASE - 1);
    TriangleIs(5552);
    TriangleIs(5553);
    if n <= 5552 {
      WorstGrows(p, p, n, 5552);
    } else {
      WorstGrows(p, p, 5553, n);
    }
  }

  /** Sums of 16 bits each, reduced or not, leave room for 5552 bytes. */
  lemma {:induction false} Room(p: Sums, s: seq<byte>)
    requires p.s1 <= 0xffff && p.s2 <= 0xffff && |s| <= 5552
    ensures AddAll(p, s).s1 <= 0xffff_ffff && AddAll(p, s).s2 <= 0xffff_ffff
  {
    Bounded(p, s);
    TriangleIs(5552);
    WorstGrows(p, Sums(0xffff, 0xffff), |s|, 5552);
  }

  // ----- combining -----

  /** The sums of a second part, started at 1 and 0, are those of the part itself moved by the first part's. */
  lemma {:induction false} Moved(p: Sums, s: seq<byte>)
    ensures AddAll(p, s).s1 + 1 == AddAll(Sums(1, 0), s).s1 + p.s1
    ensures AddAll(p, s).s2 + |s| == AddAll(Sums(1, 0), s).s2 + p.s2 + Product(|s|, p.s1)
  {
    hide Product;
    ProductStep(|s|, p.s1);
    if s != [] {
      Moved(p, s[..|s| - 1]);
    }
  }

  function Product(a: nat, b: nat): nat {
    a * b
  }

  lemma {:induction false} ProductStep(a: nat, b: nat)
    ensures Product(0, b) == 0
    ensures a > 0 ==> Product(a, b) == Product(a - 1, b) + b
  {
  }
}

/** adler32.c's reductions and procedures, with sums of 32 bits. */
module Adler32 {
  import opened Bytes
  import opened AdlerSums

  const NMAX := 5552

  type U32 = x: int | 0 <= x < 0x1_0000_0000

  // ----- reductions without division: 2^16 is 15, and 2^32 is 225, modulo BASE -----

  method Chop(a: U32) returns (r: U32)
    ensures r == a % 0x1_0000 + 15 * (a / 0x1_0000) && r % BASE == a % BASE
  {
    var tmp := a / 0x1_0000;
    r := a % 0x1_0000;
    r := r + (tmp * 16 - tmp);
    Fold(a, 0x1_0000, 15);
  }

  lemma {:induction false} Fold(a: nat, unit: nat, rest: nat)
    requires (unit == 0x1_0000 && rest == 15) || (unit == 0x1_0000_0000 && rest == 225)
    ensures (a % unit + rest * (a / unit)) % BASE == a % BASE
  {
    if unit == 0x1_0000 {
      assert a == a % 0x1_0000 + 15 * (a / 0x1_0000) + BASE * (a / 0x1_0000);
    } else {
      assert 0x1_0000_0000 == 225 + 65551 * BASE;
      assert a == a % 0x1_0000_0000 + 225 * (a / 0x1_0000_0000) + BASE * (65551 * (a / 0x1_0000_0000));
    }
  }

  /** MOD28: exact for 28 bits. */
  method Mod28(a: U32, noDivide: bool) returns (r: U32)
    requires a < 0x1000_0000
    ensures r == a % BASE
  {
    if !noDivide {
      return a % BASE;
    }
    r := Chop(a);
    if r >= BASE {
      r := r - BASE;
    }
  }

  /** MOD: exact for 32 bits. */
  method ModAny(a: U32, noDivide: bool) returns (r: U32)
    ensures r == a % BASE
  {
    if !noDivide {
      return a % BASE;
    }
    r := Chop(a);
    r := Mod28(r, noDivide);
  }

  /** MOD63: exact for every length that is not negative. */
  method Mod63(a: int, noDivide: bool) returns (r: int)
    requires 0 <= a < 0x8000_0000_0000_0000
    ensures r == a % BASE
  {
    if !noDivide {
      return a % BASE;
    }
    var tmp := a / 0x1_0000_0000;
    r := a % 0x1_0000_0000;
    r := r + ((tmp * 256) - (tmp * 32) + tmp);
    Fold(a, 0x1_0000_0000, 225);
    ghost var b := r;
    tmp := r / 0x1_0000;
    r := r % 0x1_0000;
    r := r + (tmp * 16 - tmp);
    Fold(b, 0x1_0000, 15);
    ghost var c := r;
    tmp := r / 0x1_0000;
    r := r % 0x1_0000;
    r := r + (tmp * 16 - tmp);
    Fold(c, 0x1_0000, 15);
    if r >= BASE {
      r := r - BASE;
    }
  }

  // ----- the checksum -----

  datatype Buffer = Null | Bytes(bytes: seq<byte>)

  function Halves(adler: U32): (p: Sums)
    ensures p.s1 <= 0xffff && p.s2 <= 0xffff
  {
    Sums(adler % 0x1_0000, adler / 0x1_0000)
  }

  function Pack(p: Sums): U32
    requires p.s1 <= 0xffff && p.s2 <= 0xffff
  {
    p.s1 + 0x1_0000 * p.s2
  }

  /** The checksum of `s` after data with checksum `adler`. */
  function Checksum(adler: U32, s: seq<byte>): U32 {
    Pack(Reduced(Update(Halves(adler), s)))
  }

  lemma {:induction false} HalvesPack(p: Sums)
    requires p.s1 <= 0xffff && p.s2 <= 0xffff
    ensures Halves(Pack(p)) == p
  {
  }

  lemma {:induction false} AddOne(q: Sums, s: seq<byte>, i: nat, j: nat)
    requires i <= j < |s|
    ensures AddAll(q, s[i..j + 1]) == Add(AddAll(q, s[i..j]), s[j])
  {
    assert s[i..j + 1][..j - i] == s[i..j];
  }

  /** `count` bytes from `pos`, DO1 each, without reduction. `from` is where the sums were 16 bits last. */
  method Accumulate(p: Sums, s: seq<byte>, pos: nat, count: nat, ghost q: Sums, ghost from: nat) returns (r: Sums)
    requires from <= pos && pos + count <= |s| && pos + count - from <= NMAX && q.s1 <= 0xffff && q.s2 <= 0xffff
    requires p == AddAll(q, s[from..pos])
    ensures r == AddAll(q, s[from..pos + count])
  {
    hide AddAll;
    Room(q, s[from..pos]);
    var adler: U32, sum2: U32 := p.s1, p.s2;
    for i := pos to pos + count
      invariant Sums(adler, sum2) == AddAll(q, s[from..i])
    {
      AddOne(q, s, from, i);
      Room(q, s[from..i + 1]);
      adler := adler + s[i];
      sum2 := sum2 + adler;
    }
    r := Sums(adler, sum2);
  }

  /** DO16 `blocks` times. */
  method Accumulate16(p: Sums, s: seq<byte>, pos: nat, blocks: nat) returns (r: Sums)
    requires pos + 16 * blocks <= |s| && 16 * blocks <= NMAX && p.s1 <= 0xffff && p.s2 <= 0xffff
    ensures r == AddAll(p, s[pos..pos + 16 * blocks])
  {
    hide AddAll;
    r := p;
    AddNone(p);
    assert s[pos..pos] == [];
    var n, at := blocks, pos;
    while n != 0
      invariant 0 <= n <= blocks && at == pos + 16 * (blocks - n) && r == AddAll(p, s[pos..at])
      decreases n
    {
      r := Accumulate(r, s, at, 16, p, pos);
      at, n := at + 16, n - 1;
    }
  }

  lemma {:induction false} AddNone(p: Sums)
    ensures AddAll(p, []) == p
  {
  }

  /** What was summed up to `i` from `p`, reduced, and then up to `j`. */
  lemma {:induction false} Further(p: Sums, q: Sums, s: seq<byte>, i: nat, j: nat)
    requires i <= j <= |s| && Reduced(q) == Reduced(AddAll(p, s[..i]))
    ensures Reduced(AddAll(q, s[i..j])) == Reduced(AddAll(p, s[..j]))
  {
    hide Reduced, AddAll;
    assert s[..j] == s[..i] + s[i..j];
    AddConcat(p, s[..i], s[i..j]);
    DeferredAgain(q, AddAll(p, s[..i]), s[i..j]);
  }

  method ReduceBoth(p: Sums, noDivide: bool) returns (r: Sums)
    requires p.s1 <= 0xffff_ffff && p.s2 <= 0xffff_ffff
    ensures r == Reduced(p)
  {
    var adler := ModAny(p.s1, noDivide);
    var sum2 := ModAny(p.s2, noDivide);
    r := Sums(adler, sum2);
  }

  /** Sixteen bytes or more: blocks of NMAX with one reduction each, then the rest with one. */
  method Long(p: Sums, s: seq<byte>, noDivide: bool) returns (r: Sums)
    requires 16 <= |s| && p.s1 <= 0xffff && p.s2 <= 0xffff
    ensures r == Reduced(AddAll(p, s))
  {
    hide AddAll, Reduced;
    var len, pos := |s|, 0;
    r := p;
    AddNone(p);
    assert s[..0] == [];
    while len >= NMAX
      invariant 0 <= len && 0 <= pos && pos + len == |s| && r.s1 <= 0xffff && r.s2 <= 0xffff
      invariant Reduced(r) == Reduced(AddAll(p, s[..pos]))
      invariant len < 16 ==> r == Reduced(r)
      decreases len
    {
      len := len - NMAX;
      var u := Accumulate16(r, s, pos, NMAX / 16);
      Further(p, r, s, pos, pos + NMAX);
      Room(r, s[pos..pos + NMAX]);
      r := ReduceBoth(u, noDivide);
      ReducedTwice(u);
      ReducedBelow(u);
      pos := pos + NMAX;
    }
    if len != 0 {
      var u := Accumulate16(r, s, pos, len / 16);
      u := Accumulate(u, s, pos + 16 * (len / 16), len % 16, r, pos);
      Further(p, r, s, pos, |s|);
      Room(r, s[pos..|s|]);
      r := ReduceBoth(u, noDivide);
    }
    assert s[..|s|] == s;
  }

  lemma {:induction false} ReducedBelow(p: Sums)
    ensures Reduced(p).s1 < BASE && Reduced(p).s2 < BASE
  {
  }

  /** Fewer than sixteen bytes. */
  method Short(p: Sums, s: seq<byte>, noDivide: bool) returns (r: Sums)
    requires |s| < 16 && p.s1 <= 0xffff && p.s2 <= 0xffff
    ensures r == Reduced(AddAll(p, s))
  {
    hide AddAll;
    AddNone(p);
    assert s[0..0] == [];
    var u := Accumulate(p, s, 0, |s|, p, 0);
    assert s[0..|s|] == s;
    ShortBound(p, s);
    var adler: U32 := u.s1;
    if adler >= BASE {
      adler := adler - BASE;
    }
    var sum2 := Mod28(u.s2, noDivide);
    r := Sums(adler, sum2);
  }

  lemma {:induction false} ShortBound(p: Sums, s: seq<byte>)
    requires |s| < 16 && p.s1 <= 0xffff && p.s2 <= 0xffff
    ensures AddAll(p, s).s1 < 2 * BASE && AddAll(p, s).s2 < 0x1000_0000
  {
    hide AddAll, Worst;
    Bounded(p, s);
    WorstGrows(p, Sums(0xffff, 0xffff), |s|, 15);
    TriangleIs(15);
    WorstIs(Sums(0xffff, 0xffff), 15);
  }

  lemma {:induction false} WorstIs(p: Sums, n: nat)
    ensures Worst(p, n) == Sums(p.s1 + 255 * n, p.s2 + n * p.s1 + 255 * Triangle(n))
  {
  }

  /** What one subtraction leaves of sums that would need two. */
  function Unreduced(p: Sums, b: byte): (r: Sums)
    requires p.s2 + Mod(p.s1 + b) >= 2 * BASE
    ensures r.s2 >= BASE
  {
    Sums(Mod(p.s1 + b), p.s2 + Mod(p.s1 + b) - BASE)
  }

  /** One byte, with one subtraction for each sum. */
  method Single(p: Sums, b: byte) returns (r: Sums)
    requires p.s1 <= 0xffff && p.s2 <= 0xffff
    ensures r.s1 <= 0xffff && r.s2 <= 0xffff
    ensures r == Step(p, b) <==> p.s2 + Mod(p.s1 + b) < 2 * BASE
    ensures p.s2 + Mod(p.s1 + b) >= 2 * BASE ==> r == Unreduced(p, b)
  {
    var adler: U32 := p.s1 + b;
    if adler >= BASE {
      adler := adler - BASE;
    }
    var sum2: U32 := p.s2 + adler;
    if sum2 >= BASE {
      sum2 := sum2 - BASE;
    }
    r := Sums(adler, sum2);
  }

  /** Only a single byte after a checksum that is no checksum, its upper half being too large, goes wrong. */
  predicate Regular(adler: U32, buf: Buffer) {
    buf.Bytes? && |buf.bytes| == 1 ==> Halves(adler).s2 + Mod(Halves(adler).s1 + buf.bytes[0]) < 2 * BASE
  }

  /** adler32_z. */
  method Adler32Z(adler: U32, buf: Buffer, noDivide: bool) returns (r: U32)
    ensures buf.Null? ==> r == 1
    ensures buf.Bytes? ==> (r == Checksum(adler, buf.bytes) <==> Regular(adler, buf))
    ensures !Regular(adler, buf) ==> Halves(r) == Unreduced(Halves(adler), buf.bytes[0])
  {
    hide Update, Reduced, Step, AddAll, Mod;
    var p := Halves(adler);
    if buf.Bytes? && |buf.bytes| == 1 {
      UpdateOne(p, buf.bytes);
      var one := Single(p, buf.bytes[0]);
      PackUnique(one, Step(p, buf.bytes[0]));
      return Pack(one);
    }
    if buf.Null? {
      return 1;
    }
    Deferred(p, buf.bytes);
    ReducedBelow(AddAll(p, buf.bytes));
    var q: Sums;
    if |buf.bytes| < 16 {
      q := Short(p, buf.bytes, noDivide);
    } else {
      q := Long(p, buf.bytes, noDivide);
    }
    r := Pack(q);
  }

  /** Such a call: the byte 0 after 0xFFFF_FFF0. The upper half that comes out is 65534, where the definition's is 13. */
  lemma {:induction false} IrregularCall()
    ensures !Regular(0xFFFF_FFF0, Bytes([0])) && Unreduced(Halves(0xFFFF_FFF0), 0) == Sums(65520, 65534)
    ensures Halves(Checksum(0xFFFF_FFF0, [0])) == Sums(65520, 13)
  {
    hide AddAll, Update, Step;
    UpdateOne(Halves(0xFFFF_FFF0), [0]);
    StepIs(Halves(0xFFFF_FFF0), 0);
    assert Mod(65520) == 65520 && Mod(131055) == 13;
  }

  lemma {:induction false} UpdateOne(p: Sums, s: seq<byte>)
    requires |s| == 1
    ensures Update(p, s) == Step(p, s[0]) == Reduced(Step(p, s[0]))
    ensures Step(p, s[0]).s1 < BASE && Step(p, s[0]).s2 < BASE
  {
    assert s[..0] == [];
    StepIs(p, s[0]);
    ReducedTwice(Add(p, s[0]));
    ReducedBelow(Add(p, s[0]));
  }

  lemma {:induction false} PackUnique(p: Sums, q: Sums)
    requires p.s1 <= 0xffff && p.s2 <= 0xffff && q.s1 <= 0xffff && q.s2 <= 0xffff
    ensures Pack(p) == Pack(q) <==> p == q
  {
  }

  // ----- combining -----

  /** A checksum: both halves reduced. */
  predicate Valid(adler: U32) {
    Halves(adler).s1 < BASE && Halves(adler).s2 < BASE
  }

  /** The checksum of two parts from those of each, the second started afresh at 1. */
  lemma {:induction false} Combined(p: Sums, q: Sums, s: seq<byte>, r1: int, r2: int)
    requires q == Reduced(AddAll(Sums(1, 0), s))
    requires 0 <= r1 && r1 + 1 == p.s1 + q.s1 + BASE
    requires 0 <= r2 && r2 + Mod(|s|) == p.s2 + q.s2 + Mod(Product(Mod(|s|), p.s1)) + BASE
    ensures Sums(Mod(r1), Mod(r2)) == Reduced(AddAll(p, s))
  {
    hide AddAll, Mod, Product;
    Moved(p, s);
    var a, b, n := AddAll(p, s), AddAll(Sums(1, 0), s), |s|;
    var m, l := Product(Mod(n), p.s1), Product(n, p.s1);
    ModSum(b.s1, 0);
    ModSum(b.s2, 0);
    ModSum(m, 0);
    ModSum(n, 0);
    PlusBase(p.s1);
    PlusBase(p.s2);
    ModSame(q.s1, p.s1 + BASE, b.s1, p.s1);
    SameModulo(r1, a.s1, p.s1 + q.s1 + BASE, p.s1 + b.s1, 1, 1);
    ModProduct(n, p.s1);
    ModSame(q.s2, p.s2 + BASE, b.s2, p.s2);
    ModSame(q.s2 + (p.s2 + BASE), Mod(m), b.s2 + p.s2, l);
    SameModulo(r2, a.s2, q.s2 + (p.s2 + BASE) + Mod(m), b.s2 + p.s2 + l, Mod(n), n);
  }

  lemma {:induction false} PlusBase(x: nat)
    ensures Mod(x + BASE) == Mod(x)
  {
  }

  /** Equal sums with equal parts leave equal parts. */
  lemma {:induction false} SameModulo(x: nat, y: nat, u: nat, v: nat, a: nat, b: nat)
    requires x + a == u && y + b == v && Mod(u) == Mod(v) && Mod(a) == Mod(b)
    ensures Mod(x) == Mod(y)
  {
    Multiple(u, v);
    Multiple(a, b);
    var k, l := u / BASE - v / BASE, a / BASE - b / BASE;
    assert x - y == BASE * (k - l);
    Apart(x, y, k - l);
  }

  lemma {:induction false} Multiple(x: nat, y: nat)
    requires Mod(x) == Mod(y)
    ensures x - y == BASE * (x / BASE - y / BASE)
  {
  }

  lemma {:induction false} Apart(x: nat, y: nat, k: int)
    requires x - y == BASE * k
    ensures Mod(x) == Mod(y)
  {
    assert x == BASE * (y / BASE + k) + y % BASE;
  }

  lemma {:induction false} ModProduct(n: nat, s: nat)
    ensures Mod(Product(Mod(n), s)) == Mod(Product(n, s))
  {
    var k := n / BASE;
    Distribute(k, Mod(n), s);
    Apart(Product(n, s), Product(Mod(n), s), k * s);
  }

  lemma {:induction false} Distribute(k: nat, m: nat, s: nat)
    ensures (BASE * k + m) * s == BASE * (k * s) + m * s
  {
  }

  /** adler32_combine_: `adler1` is any checksum, `adler2` that of `len2` bytes on their own. */
  method Combine(adler1: U32, adler2: U32, len2: int, noDivide: bool, ghost s: seq<byte>) returns (r: U32)
    requires len2 < 0x8000_0000_0000_0000
    ensures len2 < 0 ==> r == 0xffff_ffff
    ensures Valid(adler1) && len2 == |s| && adler2 == Checksum(1, s) ==> r == Checksum(adler1, s)
  {
    hide AddAll, Update, Mod, Product;
    if len2 < 0 {
      return 0xffff_ffff;
    }
    var rem := Mod63(len2, noDivide);
    var p1, p2 := Halves(adler1), Halves(adler2);
    var sum1: U32 := p1.s1;
    SmallProduct(rem, sum1);
    var sum2: U32 := Product(rem, sum1);
    sum2 := ModAny(sum2, noDivide);
    sum1 := sum1 + (p2.s1 + BASE - 1);
    sum2 := sum2 + (p1.s2 + p2.s2 + BASE - rem);
    ghost var r1, r2 := sum1, sum2;
    if sum1 >= BASE {
      sum1 := sum1 - BASE;
    }
    if sum1 >= BASE {
      sum1 := sum1 - BASE;
    }
    if sum2 >= 2 * BASE {
      sum2 := sum2 - 2 * BASE;
    }
    if sum2 >= BASE {
      sum2 := sum2 - BASE;
    }
    r := (sum1 + 0x1_0000 * sum2) % 0x1_0000_0000;
    if Valid(adler1) && len2 == |s| && adler2 == Checksum(1, s) {
      SecondPart(adler2, s);
      ModIs(len2);
      ModIs(Product(rem, p1.s1));
      Combined(p1, p2, s, r1, r2);
      Deferred(p1, s);
      Subtracted(r1, r2);
      assert sum1 == Mod(r1) && sum2 == Mod(r2);
    }
  }

  lemma {:induction false} ModIs(x: nat)
    ensures Mod(x) == x % BASE
  {
  }

  lemma {:induction false} Subtracted(x: nat, y: nat)
    requires x < 3 * BASE && y < 4 * BASE
    ensures Mod(x) == if x >= 2 * BASE then x - 2 * BASE else if x >= BASE then x - BASE else x
    ensures Mod(y) == if y >= 3 * BASE then y - 3 * BASE else if y >= 2 * BASE then y - 2 * BASE
      else if y >= BASE then y - BASE else y
  {
  }

  lemma {:induction false} SmallProduct(a: nat, b: nat)
    requires a < BASE && b <= 0xffff
    ensures Product(a, b) < 0x1_0000_0000
  {
    Grows(a, BASE, b);
    Grows(b, 0xffff, BASE);
  }

  lemma {:induction false} Grows(a: nat, b: nat, c: nat)
    requires a <= b
    ensures a * c <= b * c && a * c == c * a
  {
    assert (b - a) * c >= 0;
  }

  lemma {:induction false} SecondPart(adler: U32, s: seq<byte>)
    requires adler == Checksum(1, s)
    ensures Halves(adler) == Reduced(AddAll(Sums(1, 0), s))
    ensures Halves(adler).s1 < BASE && Halves(adler).s2 < BASE
  {
    hide AddAll, Update, Reduced;
    assert Halves(1) == Sums(1, 0);
    Deferred(Sums(1, 0), s);
    ReducedBelow(Update(Sums(1, 0), s));
    HalvesPack(Reduced(Update(Sums(1, 0), s)));
  }
}
