// Vector registers as sequences of 16 or 32 bytes, with the unpack and permute instructions the SSE2 and
// AVX2 filters use. A place is named by its bits, so that a network is a permutation of bits.

module Registers {
  import opened Bytes

  type Reg = seq<byte>

  type bit = x: int | 0 <= x < 2

  /** A register number or a place within a lane of 16 bytes. */
  function Num(a: bit, b: bit, c: bit, d: bit): (n: nat)
    ensures n < 16
  {
    8 * a + 4 * b + 2 * c + d
  }

  // Quotients and remainders, as functions so that proofs about bits need no division.

  function Quot(n: nat, m: nat): nat
    requires m > 0
  {
    n / m
  }

  function Rem(n: nat, m: nat): nat
    requires m > 0
  {
    n % m
  }

  lemma {:induction false} Parts(n: nat, x: nat, v: nat, m: nat)
    requires (m == 2 || m == 4 || m == 8 || m == 16 || m == 32) && v < m && n == m * x + v
    ensures Quot(n, m) == x && Rem(n, m) == v
  {
    if m == 2 {
    } else if m == 4 {
    } else if m == 8 {
    } else if m == 16 {
    } else {
    }
  }

  lemma {:induction false} PartsBack(n: nat, m: nat)
    requires m == 2 || m == 4 || m == 8 || m == 16 || m == 32
    ensures n == m * Quot(n, m) + Rem(n, m) && Rem(n, m) < m
  {
    if m == 2 {
    } else if m == 4 {
    } else if m == 8 {
    } else if m == 16 {
    } else {
    }
  }

  lemma {:induction false} BitsOf(n: nat) returns (a: bit, b: bit, c: bit, d: bit)
    requires n < 16
    ensures n == Num(a, b, c, d)
  {
    hide Quot, Rem;
    PartsBack(n, 8);
    PartsBack(Rem(n, 8), 4);
    PartsBack(Rem(Rem(n, 8), 4), 2);
    a, b, c, d := Quot(n, 8), Quot(Rem(n, 8), 4), Quot(Rem(Rem(n, 8), 4), 2), Rem(Rem(Rem(n, 8), 4), 2);
  }

  /** The granularities of the unpack instructions: bytes, words, double words and quad words. */
  predicate Unit(g: nat) {
    g == 1 || g == 2 || g == 4 || g == 8
  }

  /** Whether an unpack takes place `o` of a lane from its second operand. */
  predicate FromSecond(o: nat, g: nat)
    requires g > 0
  {
    Rem(Quot(o, g), 2) == 1
  }

  /** Where in the operand's lane an unpack finds what it puts at place `o`: low halves for h = 0, high for 1. */
  function UnpackPlace(o: nat, g: nat, h: bit): nat
    requires g > 0
  {
    8 * h + g * Quot(o, 2 * g) + Rem(o, g)
  }

  lemma {:induction false} PlaceInLane(i: nat, w: nat, g: nat, h: bit)
    requires i < w && (w == 16 || w == 32) && Unit(g)
    ensures 16 * Quot(i, 16) + UnpackPlace(Rem(i, 16), g, h) < w
  {
    hide Quot, Rem;
    PartsBack(i, 16);
    PartsBack(Rem(i, 16), 2 * g);
    SmallRem(Rem(i, 16), g);
  }

  lemma {:induction false} SmallRem(o: nat, g: nat)
    requires Unit(g)
    ensures Rem(o, g) < g
  {
  }

  /** Byte `i` after unpacklo (h = 0) or unpackhi (h = 1) of units of `g` bytes, lane by lane. */
  function UnpackAt(a: Reg, b: Reg, g: nat, h: bit, i: nat): byte
    requires |a| == |b| && (|a| == 16 || |a| == 32) && i < |a| && Unit(g)
  {
    PlaceInLane(i, |a|, g, h);
    (if FromSecond(Rem(i, 16), g) then b else a)[16 * Quot(i, 16) + UnpackPlace(Rem(i, 16), g, h)]
  }

  /** _mm_unpacklo_epi8 and its relatives. */
  function Unpack(a: Reg, b: Reg, g: nat, h: bit): (r: Reg)
    requires |a| == |b| && (|a| == 16 || |a| == 32) && Unit(g)
    ensures |r| == |a|
  {
    seq(|a|, i requires 0 <= i < |a| => UnpackAt(a, b, g, h, i))
  }

  /** The bit of a place that an unpack of units of `g` bytes takes as the choice of operand. */
  function Chosen(g: nat, p: bit, q: bit, r: bit, s: bit): bit {
    if g == 1 then s else if g == 2 then r else if g == 4 then q else p
  }

  /** The place with that bit taken out and the half put on top. */
  function Rotated(g: nat, h: bit, p: bit, q: bit, r: bit, s: bit): (n: nat)
    ensures n < 16
  {
    if g == 1 then Num(h, p, q, r) else if g == 2 then Num(h, p, q, s) else if g == 4 then Num(h, p, r, s) else Num(h, q, r, s)
  }

  lemma {:induction false} PlaceBits(g: nat, h: bit, p: bit, q: bit, r: bit, s: bit)
    requires Unit(g)
    ensures FromSecond(Num(p, q, r, s), g) <==> Chosen(g, p, q, r, s) == 1
    ensures UnpackPlace(Num(p, q, r, s), g, h) == Rotated(g, h, p, q, r, s)
  {
    hide Quot, Rem;
    var n := Num(p, q, r, s);
    if g == 1 {
      Ones(n);
      Parts(n, 4 * p + 2 * q + r, s, 2);
    } else if g == 2 {
      Parts(n, 4 * p + 2 * q + r, s, 2);
      Parts(4 * p + 2 * q + r, 2 * p + q, r, 2);
      Parts(n, 2 * p + q, 2 * r + s, 4);
    } else if g == 4 {
      Parts(n, 2 * p + q, 2 * r + s, 4);
      Parts(2 * p + q, p, q, 2);
      Parts(n, p, 4 * q + 2 * r + s, 8);
    } else {
      Parts(n, p, 4 * q + 2 * r + s, 8);
      Parts(p, 0, p, 2);
      Parts(n, 0, n, 16);
    }
  }

  lemma {:induction false} Ones(n: nat)
    ensures Quot(n, 1) == n && Rem(n, 1) == 0
  {
  }

  /** An unpack in terms of bits. `t` is the lane. */
  lemma {:induction false} UnpackBits(a: Reg, b: Reg, g: nat, h: bit, t: bit, p: bit, q: bit, r: bit, s: bit)
    requires |a| == |b| && (|a| == 16 || |a| == 32) && 16 * t < |a| && Unit(g)
    ensures 16 * t + Num(p, q, r, s) < |a| && 16 * t + Rotated(g, h, p, q, r, s) < |a|
    ensures Unpack(a, b, g, h)[16 * t + Num(p, q, r, s)]
         == (if Chosen(g, p, q, r, s) == 1 then b else a)[16 * t + Rotated(g, h, p, q, r, s)]
  {
    hide FromSecond, UnpackPlace, Chosen, Rotated, Num, Unit, Quot, Rem;
    PlaceBits(g, h, p, q, r, s);
    Parts(16 * t + Num(p, q, r, s), t, Num(p, q, r, s), 16);
  }

  // ----- permutations within one register -----

  /** The selector for part `t` in an immediate operand. */
  function Sel(imm: nat, t: nat): (v: nat)
    ensures v < 4
  {
    (if t == 0 then imm else if t == 1 then imm / 4 else if t == 2 then imm / 16 else imm / 64) % 4
  }

  /** Parts of a register gathered from elsewhere: place `i` of the result comes from `from(i)`. */
  function Permuted(x: Reg, from: nat -> nat): (r: Reg)
    requires forall i :: 0 <= i < |x| ==> from(i) < |x|
    ensures |r| == |x| && forall i :: 0 <= i < |x| ==> r[i] == x[from(i)]
  {
    seq(|x|, i requires 0 <= i < |x| => x[from(i)])
  }

  function DwordPlace(imm: nat, i: nat): nat {
    16 * Quot(i, 16) + 4 * Sel(imm, Quot(Rem(i, 16), 4)) + Rem(i, 4)
  }

  /** _mm_shuffle_epi32, lane by lane. */
  function ShuffleDwords(x: Reg, imm: nat): (r: Reg)
    requires |x| == 16 || |x| == 32
    ensures |r| == |x| && forall i :: 0 <= i < |x| ==> DwordPlace(imm, i) < |x| && r[i] == x[DwordPlace(imm, i)]
  {
    assert forall i :: 0 <= i < |x| ==> DwordPlace(imm, i) < |x| by {
      hide Sel;
    }
    Permuted(x, (i: nat) => DwordPlace(imm, i))
  }

  function WordPlace(imm: nat, i: nat): nat {
    8 * Quot(i, 8) + 2 * Sel(imm, Quot(Rem(i, 8), 2)) + Rem(i, 2)
  }

  /** _mm_shufflelo_epi16 and _mm_shufflehi_epi16, one after the other with the same operand. */
  function ShuffleWords(x: Reg, imm: nat): (r: Reg)
    requires |x| == 16
    ensures |r| == |x| && forall i :: 0 <= i < |x| ==> WordPlace(imm, i) < |x| && r[i] == x[WordPlace(imm, i)]
  {
    assert forall i :: 0 <= i < |x| ==> WordPlace(imm, i) < |x| by {
      hide Sel;
    }
    Permuted(x, (i: nat) => WordPlace(imm, i))
  }

  function QwordPlace(imm: nat, i: nat): nat {
    8 * Sel(imm, Quot(i, 8)) + Rem(i, 8)
  }

  /** _mm256_permute4x64_epi64. */
  function PermuteQwords(x: Reg, imm: nat): (r: Reg)
    requires |x| == 32
    ensures |r| == |x| && forall i :: 0 <= i < |x| ==> QwordPlace(imm, i) < |x| && r[i] == x[QwordPlace(imm, i)]
  {
    assert forall i :: 0 <= i < |x| ==> QwordPlace(imm, i) < |x| by {
      hide Sel;
    }
    Permuted(x, (i: nat) => QwordPlace(imm, i))
  }

  /** _mm256_shuffle_epi8 with a mask that is the same for both lanes. */
  function ShuffleBytes(x: Reg, mask: seq<nat>): (r: Reg)
    requires |x| == 32 && |mask| == 16 && forall k :: 0 <= k < 16 ==> mask[k] < 16
    ensures |r| == |x|
  {
    seq(32, i requires 0 <= i < 32 => x[16 * Quot(i, 16) + mask[Rem(i, 16)]])
  }

  /** _mm256_permutevar8x32_epi32. */
  function PermuteDwords(x: Reg, mask: seq<nat>): (r: Reg)
    requires |x| == 32 && |mask| == 8 && forall k :: 0 <= k < 8 ==> mask[k] < 8
    ensures |r| == |x|
  {
    seq(32, i requires 0 <= i < 32 => x[4 * mask[Quot(i, 4)] + Rem(i, 4)])
  }

  /** _mm256_permute2x128_si256 with 0x20 (the low lanes) or 0x31 (the high lanes). */
  function JoinLanes(a: Reg, b: Reg, half: bit): (r: Reg)
    requires |a| == 32 && |b| == 32
    ensures |r| == 32
  {
    a[16 * half..16 * half + 16] + b[16 * half..16 * half + 16]
  }

  /** _mm256_blend_epi32 with 0xf0 or 0x0f: one lane from each operand. */
  function BlendLanes(low: Reg, high: Reg): (r: Reg)
    requires |low| == 32 && |high| == 32
    ensures |r| == 32
  {
    low[..16] + high[16..]
  }

  lemma {:induction false} LaneParts(t: bit, n: nat)
    requires n < 16
    ensures Quot(16 * t + n, 16) == t && Rem(16 * t + n, 16) == n
  {
    hide Quot, Rem;
    Parts(16 * t + n, t, n, 16);
  }

  lemma {:induction false} QwordParts(t: bit, p: bit, q: bit, r: bit, s: bit)
    ensures Quot(16 * t + Num(p, q, r, s), 8) == 2 * t + p && Rem(16 * t + Num(p, q, r, s), 8) == 4 * q + 2 * r + s
  {
    hide Quot, Rem;
    Parts(16 * t + Num(p, q, r, s), 2 * t + p, 4 * q + 2 * r + s, 8);
  }

  lemma {:induction false} DwordParts(t: bit, p: bit, q: bit, r: bit, s: bit)
    ensures Quot(16 * t + Num(p, q, r, s), 4) == 4 * t + 2 * p + q && Rem(16 * t + Num(p, q, r, s), 4) == 2 * r + s
  {
    hide Quot, Rem;
    Parts(16 * t + Num(p, q, r, s), 4 * t + 2 * p + q, 2 * r + s, 4);
  }

  lemma {:induction false} InnerParts(p: bit, q: bit, r: bit, s: bit)
    ensures Quot(Num(p, q, r, s), 4) == 2 * p + q
  {
    hide Quot, Rem;
    Parts(Num(p, q, r, s), 2 * p + q, 2 * r + s, 4);
  }

  lemma {:induction false} NumIs(p: bit, q: bit, r: bit, s: bit)
    ensures Num(p, q, r, s) == 8 * p + 4 * q + 2 * r + s
  {
  }

  lemma {:induction false} WordParts(p: bit, q: bit, r: bit, s: bit)
    ensures Quot(4 * q + 2 * r + s, 2) == 2 * q + r && Rem(Num(p, q, r, s), 2) == s
  {
    hide Quot, Rem;
    Parts(4 * q + 2 * r + s, 2 * q + r, s, 2);
    Parts(Num(p, q, r, s), 4 * p + 2 * q + r, s, 2);
  }

  lemma {:induction false} SelD8(a: bit, b: bit)
    ensures Sel(0xd8, 2 * a + b) == 2 * b + a && Sel(0x4e, 2 * a + b) == 2 * (1 - a) + b
    ensures Sel(0x8d, 2 * a + b) == 2 * b + (1 - a) && Sel(0x72, 2 * a + b) == 2 * (1 - b) + a
  {
  }

  lemma {:induction false} DwordMoves(imm: nat, t: bit, p: bit, q: bit, r: bit, s: bit, u: bit, v: bit)
    requires Sel(imm, 2 * p + q) == 2 * u + v
    ensures DwordPlace(imm, 16 * t + Num(p, q, r, s)) == 16 * t + Num(u, v, r, s)
  {
    hide Sel, Quot, Rem, Num;
    LaneParts(t, Num(p, q, r, s));
    InnerParts(p, q, r, s);
    DwordParts(t, p, q, r, s);
    NumIs(u, v, r, s);
  }

  lemma {:induction false} DwordsBits(x: Reg, t: bit, p: bit, q: bit, r: bit, s: bit)
    requires (|x| == 16 || |x| == 32) && 16 * t < |x|
    ensures ShuffleDwords(x, 0xd8)[16 * t + Num(p, q, r, s)] == x[16 * t + Num(q, p, r, s)]
    ensures ShuffleDwords(x, 0x4e)[16 * t + Num(p, q, r, s)] == x[16 * t + Num(1 - p, q, r, s)]
    ensures ShuffleDwords(x, 0x8d)[16 * t + Num(p, q, r, s)] == x[16 * t + Num(q, 1 - p, r, s)]
  {
    hide Sel, DwordPlace, ShuffleDwords, Num;
    SelD8(p, q);
    DwordMoves(0xd8, t, p, q, r, s, q, p);
    DwordMoves(0x4e, t, p, q, r, s, 1 - p, q);
    DwordMoves(0x8d, t, p, q, r, s, q, 1 - p);
  }

  lemma {:induction false} WordMoves(imm: nat, p: bit, q: bit, r: bit, s: bit, u: bit, v: bit)
    requires Sel(imm, 2 * q + r) == 2 * u + v
    ensures WordPlace(imm, Num(p, q, r, s)) == Num(p, u, v, s)
  {
    hide Sel, Quot, Rem;
    QwordParts(0, p, q, r, s);
    WordParts(p, q, r, s);
  }

  lemma {:induction false} WordsBits(x: Reg, p: bit, q: bit, r: bit, s: bit)
    requires |x| == 16
    ensures ShuffleWords(x, 0xd8)[Num(p, q, r, s)] == x[Num(p, r, q, s)]
  {
    hide Sel, WordPlace, ShuffleWords, Num;
    SelD8(q, r);
    WordMoves(0xd8, p, q, r, s, r, q);
  }

  lemma {:induction false} QwordMoves(imm: nat, t: bit, p: bit, q: bit, r: bit, s: bit, u: bit, v: bit)
    requires Sel(imm, 2 * t + p) == 2 * u + v
    ensures QwordPlace(imm, 16 * t + Num(p, q, r, s)) == 16 * u + Num(v, q, r, s)
  {
    hide Sel, Quot, Rem;
    QwordParts(t, p, q, r, s);
  }

  lemma {:induction false} QwordsBits(x: Reg, t: bit, p: bit, q: bit, r: bit, s: bit)
    requires |x| == 32
    ensures PermuteQwords(x, 0xd8)[16 * t + Num(p, q, r, s)] == x[16 * p + Num(t, q, r, s)]
    ensures PermuteQwords(x, 0x4e)[16 * t + Num(p, q, r, s)] == x[16 * (1 - t) + Num(p, q, r, s)]
    ensures PermuteQwords(x, 0x8d)[16 * t + Num(p, q, r, s)] == x[16 * p + Num(1 - t, q, r, s)]
    ensures PermuteQwords(x, 0x72)[16 * t + Num(p, q, r, s)] == x[16 * (1 - p) + Num(t, q, r, s)]
  {
    hide Sel, QwordPlace, PermuteQwords, Num;
    SelD8(t, p);
    QwordMoves(0xd8, t, p, q, r, s, p, t);
    QwordMoves(0x4e, t, p, q, r, s, 1 - t, p);
    QwordMoves(0x8d, t, p, q, r, s, p, 1 - t);
    QwordMoves(0x72, t, p, q, r, s, 1 - p, t);
  }

  lemma {:induction false} JoinBits(a: Reg, b: Reg, half: bit, t: bit, n: nat)
    requires |a| == 32 && |b| == 32 && n < 16
    ensures JoinLanes(a, b, half)[16 * t + n] == (if t == 1 then b else a)[16 * half + n]
  {
    if t == 0 {
      assert JoinLanes(a, b, half)[n] == a[16 * half..16 * half + 16][n];
    } else {
      assert JoinLanes(a, b, half)[16 + n] == b[16 * half..16 * half + 16][n];
    }
  }

  lemma {:induction false} BlendBits(a: Reg, b: Reg, t: bit, n: nat)
    requires |a| == 32 && |b| == 32 && n < 16
    ensures BlendLanes(a, b)[16 * t + n] == (if t == 1 then b else a)[16 * t + n]
  {
  }
}

/** Register files rewritten stage by stage. */
module Networks {
  import opened Registers

  ghost predicate File(f: seq<Reg>, n: nat, w: nat) {
    |f| == n && forall k :: 0 <= k < n ==> |f[k]| == w
  }

  /** Sizes of register files and registers. */
  predicate Sizes(n: nat, w: nat) {
    (n == 2 || n == 4 || n == 8 || n == 16) && (w == 16 || w == 32)
  }

  /** The first register of pair `k` when pairs are `d` apart. */
  function PairOf(k: nat, d: nat): nat {
    if d == 1 then 2 * k else if d == 2 then 4 * (k / 2) + k % 2 else if d == 4 then 8 * (k / 4) + k % 4 else k
  }

  lemma {:induction false} PairFits(k: nat, d: nat, n: nat)
    requires (n == 2 || n == 4 || n == 8 || n == 16) && Unit(d) && 2 * d <= n && k < n / 2
    ensures PairOf(k, d) + d < n
  {
  }

  lemma {:induction false} PairNext(k: nat, d: nat)
    requires Unit(d) && (d == 8 ==> k < 7)
    ensures PairOf(k + 1, d) == PairOf(k, d) + 1 + if Starts(k + 1, d) then d else 0
  {
    if d == 1 {
    } else if d == 2 {
    } else if d == 4 {
    } else {
    }
  }

  /** Pairs of registers `d` apart have been unpacked by units of `g` bytes into neighbours. */
  ghost predicate Paired(to: seq<Reg>, from: seq<Reg>, n: nat, w: nat, d: nat, g: nat) {
    && File(to, n, w) && File(from, n, w) && Sizes(n, w) && Unit(d) && 2 * d <= n
    && forall k :: 0 <= k < n / 2 ==> PairDone(to, from, k, d, g)
  }

  ghost predicate PairDone(to: seq<Reg>, from: seq<Reg>, k: nat, d: nat, g: nat) {
    && 2 * k + 1 < |to| && PairOf(k, d) + d < |from|
    && |from[PairOf(k, d)]| == |from[PairOf(k, d) + d]|
    && (|from[PairOf(k, d)]| == 16 || |from[PairOf(k, d)]| == 32) && Unit(g)
    && to[2 * k] == Unpack(from[PairOf(k, d)], from[PairOf(k, d) + d], g, 0)
    && to[2 * k + 1] == Unpack(from[PairOf(k, d)], from[PairOf(k, d) + d], g, 1)
  }

  /** Whether pair `k` begins a run of `d` pairs. */
  predicate Starts(k: nat, d: nat) {
    d > 0 && k % d == 0
  }

  method UnpackPair(from: array<Reg>, to: array<Reg>, n: nat, w: nat, k: nat, l: nat, d: nat, g: nat)
    requires from != to && File(from[..], n, w) && File(to[..], n, w) && Sizes(n, w) && Unit(g)
    requires k < n / 2 && l == PairOf(k, d) && l + d < n
    requires forall i :: 0 <= i < k ==> PairDone(to[..], from[..], i, d, g)
    modifies to
    ensures File(to[..], n, w) && forall i :: 0 <= i < k + 1 ==> PairDone(to[..], from[..], i, d, g)
  {
    hide Unpack, PairOf;
    ghost var was := to[..];
    to[k * 2] := Unpack(from[l], from[l + d], g, 0);
    to[k * 2 + 1] := Unpack(from[l], from[l + d], g, 1);
    forall i | 0 <= i < k ensures PairDone(to[..], from[..], i, d, g) {
      assert PairDone(was, from[..], i, d, g);
    }
    assert PairDone(to[..], from[..], k, d, g);
  }

  /** One loop of unpacks: `l` runs through the first registers of the pairs. */
  method PairStage(from: array<Reg>, to: array<Reg>, n: nat, w: nat, d: nat, g: nat)
    requires from != to && File(from[..], n, w) && File(to[..], n, w) && Sizes(n, w) && Unit(g) && Unit(d) && 2 * d <= n
    modifies to
    ensures Paired(to[..], from[..], n, w, d, g)
  {
    hide Unpack, PairOf, Starts, PairDone;
    var k := 0;
    var l: int := 0 - d;
    FirstPair(d);
    while k < n / 2
      invariant 0 <= k <= n / 2 && File(to[..], n, w)
      invariant k < n / 2 ==> l == PairOf(k, d) - if Starts(k, d) then d else 0
      invariant forall i :: 0 <= i < k ==> PairDone(to[..], from[..], i, d, g)
    {
      if Starts(k, d) {
        l := l + d;
      }
      PairFits(k, d, n);
      UnpackPair(from, to, n, w, k, l, d, g);
      if k + 1 < n / 2 {
        PairNext(k, d);
      }
      k, l := k + 1, l + 1;
    }
  }

  lemma {:induction false} FirstPair(d: nat)
    requires Unit(d)
    ensures PairOf(0, d) == 0 && Starts(0, d)
  {
  }

  /** The register number with the bit `x` put in at place `d`. */
  function Spliced(d: nat, a: bit, b: bit, c: bit, x: bit): nat {
    if d == 1 then Num(a, b, c, x) else if d == 2 then Num(a, b, x, c) else if d == 4 then Num(a, x, b, c) else Num(x, a, b, c)
  }

  lemma {:induction false} PairOfBits(d: nat, a: bit, b: bit, c: bit, x: bit)
    requires Unit(d)
    ensures PairOf(4 * a + 2 * b + c, d) + d * x == Spliced(d, a, b, c, x)
  {
    ThreeBits(a, b, c);
  }

  lemma {:induction false} ThreeBits(a: bit, b: bit, c: bit)
    ensures (4 * a + 2 * b + c) / 2 == 2 * a + b && (4 * a + 2 * b + c) % 2 == c
    ensures (4 * a + 2 * b + c) / 4 == a && (4 * a + 2 * b + c) % 4 == 2 * b + c
  {
  }

  /** A stage in terms of bits: the chosen bit of the place moves into the register number, the last bit of the number out. */
  lemma {:induction false} PairedBits(to: seq<Reg>, from: seq<Reg>, n: nat, w: nat, d: nat, g: nat, t: bit,
      a: bit, b: bit, c: bit, h: bit, p: bit, q: bit, r: bit, s: bit)
    requires Paired(to, from, n, w, d, g) && Unit(g) && 16 * t < w && Num(a, b, c, h) < n
    ensures Spliced(d, a, b, c, Chosen(g, p, q, r, s)) < n
    ensures 16 * t + Num(p, q, r, s) < w && 16 * t + Rotated(g, h, p, q, r, s) < w
    ensures to[Num(a, b, c, h)][16 * t + Num(p, q, r, s)]
         == from[Spliced(d, a, b, c, Chosen(g, p, q, r, s))][16 * t + Rotated(g, h, p, q, r, s)]
  {
    hide Unpack, PairOf, Chosen, Rotated, Spliced, Unit;
    var k, x := 4 * a + 2 * b + c, Chosen(g, p, q, r, s);
    assert Num(a, b, c, h) == 2 * k + h;
    assert PairDone(to, from, k, d, g);
    var l := PairOf(k, d);
    UnpackBits(from[l], from[l + d], g, h, t, p, q, r, s);
    PairOfBits(d, a, b, c, x);
    assert d * x == if x == 1 then d else 0;
  }

  // ----- the unpacks of the inverse -----

  ghost predicate GatherDone(to: seq<Reg>, from: seq<Reg>, n: nat, j: nat, g: nat) {
    && 2 * j + 1 < |from| && n / 2 + j < |to|
    && |from[2 * j]| == |from[2 * j + 1]| && (|from[2 * j]| == 16 || |from[2 * j]| == 32) && Unit(g)
    && to[j] == Unpack(from[2 * j], from[2 * j + 1], g, 0)
    && to[n / 2 + j] == Unpack(from[2 * j], from[2 * j + 1], g, 1)
  }

  /** Neighbouring registers have been unpacked, low halves into the first half of the file, high ones into the second. */
  ghost predicate Gathered(to: seq<Reg>, from: seq<Reg>, n: nat, w: nat, g: nat) {
    && File(to, n, w) && File(from, n, w) && Sizes(n, w)
    && forall j :: 0 <= j < n / 2 ==> GatherDone(to, from, n, j, g)
  }

  method GatherStage(from: array<Reg>, to: array<Reg>, n: nat, w: nat, g: nat)
    requires from != to && File(from[..], n, w) && File(to[..], n, w) && Sizes(n, w) && Unit(g)
    modifies to
    ensures Gathered(to[..], from[..], n, w, g)
  {
    hide Unpack;
    for j := 0 to n / 2
      invariant File(to[..], n, w)
      invariant forall i :: 0 <= i < j ==> GatherDone(to[..], from[..], n, i, g)
    {
      ghost var was := to[..];
      to[j] := Unpack(from[j * 2], from[j * 2 + 1], g, 0);
      to[n / 2 + j] := Unpack(from[j * 2], from[j * 2 + 1], g, 1);
      forall i | 0 <= i < j ensures GatherDone(to[..], from[..], n, i, g) {
        assert GatherDone(was, from[..], n, i, g);
      }
      assert GatherDone(to[..], from[..], n, j, g);
    }
  }

  /** The number of register `j` of half `h` in a file of `n`. */
  function Halved(n: nat, h: bit, b: bit, c: bit, d: bit): nat {
    if n == 16 then Num(h, b, c, d) else if n == 8 then Num(0, h, c, d) else if n == 4 then Num(0, 0, h, d) else Num(0, 0, 0, h)
  }

  lemma {:induction false} GatheredBits(to: seq<Reg>, from: seq<Reg>, n: nat, w: nat, g: nat, t: bit,
      h: bit, b: bit, c: bit, d: bit, p: bit, q: bit, r: bit, s: bit)
    requires Gathered(to, from, n, w, g) && Unit(g) && 16 * t < w
    requires (n <= 8 ==> b == 0) && (n <= 4 ==> c == 0) && (n <= 2 ==> d == 0)
    ensures Halved(n, h, b, c, d) < n && Num(b, c, d, Chosen(g, p, q, r, s)) < n
    ensures 16 * t + Num(p, q, r, s) < w && 16 * t + Rotated(g, h, p, q, r, s) < w
    ensures to[Halved(n, h, b, c, d)][16 * t + Num(p, q, r, s)]
         == from[Num(b, c, d, Chosen(g, p, q, r, s))][16 * t + Rotated(g, h, p, q, r, s)]
  {
    hide Unpack, Chosen, Rotated, Unit;
    var j, x := 4 * b + 2 * c + d, Chosen(g, p, q, r, s);
    assert j < n / 2;
    assert GatherDone(to, from, n, j, g);
    assert Halved(n, h, b, c, d) == if h == 1 then n / 2 + j else j;
    assert Num(b, c, d, x) == 2 * j + x;
    UnpackBits(from[2 * j], from[2 * j + 1], g, h, t, p, q, r, s);
  }
}
