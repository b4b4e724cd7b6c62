// The unpack networks of blosc/bitshuffle-sse2.c and blosc/bitshuffle-avx2.c: bytes of elements, and rows of bits.

module BitshuffleKernels {
  import opened Registers
  import opened Networks
  import opened ShuffleKernels

  // ----- bytes within elements -----

  // Elements of two bytes: four times the same stage.

  lemma {:induction false} Pairs2Bits(x0: seq<Reg>, x1: seq<Reg>, x2: seq<Reg>, x3: seq<Reg>, x4: seq<Reg>,
      h: bit, p: bit, q: bit, r: bit, s: bit)
    requires Paired(x1, x0, 2, 16, 1, 1) && Paired(x2, x1, 2, 16, 1, 1) && Paired(x3, x2, 2, 16, 1, 1) && Paired(x4, x3, 2, 16, 1, 1)
    ensures LaneCell(x4, x0, 2, 0, Num(0, 0, 0, h), Num(p, q, r, s))
  {
    hide Paired, Quot, Rem, Num;
    SmallNum(0, 0, h);
    SmallNum(0, 0, s);
    SmallNum(0, 0, r);
    SmallNum(0, 0, q);
    SmallNum(0, 0, p);
    PairedBits(x4, x3, 2, 16, 1, 1, 0, 0, 0, 0, h, p, q, r, s);
    PairedBits(x3, x2, 2, 16, 1, 1, 0, 0, 0, 0, s, h, p, q, r);
    PairedBits(x2, x1, 2, 16, 1, 1, 0, 0, 0, 0, r, s, h, p, q);
    PairedBits(x1, x0, 2, 16, 1, 1, 0, 0, 0, 0, q, r, s, h, p);
    FilesOf(x4, x3, 2, 16, 1, 1);
    FilesOf(x1, x0, 2, 16, 1, 1);
    Place2(h, p, q, r, s);
  }

  /** The network of bshuf_trans_byte_elem_SSE_16. */
  method Elements16(mm0: array<Reg>, mm1: array<Reg>)
    requires mm0 != mm1 && File(mm0[..], 2, 16) && File(mm1[..], 2, 16)
    modifies mm0, mm1
    ensures Turned(mm0[..], old(mm0[..]), 2, 16)
  {
    hide Paired, LaneCell, Turned;
    ghost var x0 := mm0[..];
    PairStage(mm0, mm1, 2, 16, 1, 1);
    ghost var x1 := mm1[..];
    FilesOf(x1, x0, 2, 16, 1, 1);
    PairStage(mm1, mm0, 2, 16, 1, 1);
    ghost var x2 := mm0[..];
    FilesOf(x2, x1, 2, 16, 1, 1);
    PairStage(mm0, mm1, 2, 16, 1, 1);
    ghost var x3 := mm1[..];
    FilesOf(x3, x2, 2, 16, 1, 1);
    PairStage(mm1, mm0, 2, 16, 1, 1);
    ghost var x4 := mm0[..];
    FilesOf(x4, x3, 2, 16, 1, 1);
    forall t: bit, b, o | 16 * t < 16 && 0 <= b < 2 && 0 <= o < 16 ensures LaneCell(x4, x0, 2, t, b, o) {
      var o3, o2, o1, o0 := BitsOf(o);
      Pairs2Bits(x0, x1, x2, x3, x4, b, o3, o2, o1, o0);
    }
    OneLane(x4, x0, 2);
  }

  // Elements of four bytes.

  lemma {:induction false} Pairs4Bits(x0: seq<Reg>, x1: seq<Reg>, x2: seq<Reg>, x3: seq<Reg>, x4: seq<Reg>,
      c: bit, h: bit, p: bit, q: bit, r: bit, s: bit)
    requires Paired(x1, x0, 4, 16, 1, 1) && Paired(x2, x1, 4, 16, 1, 1) && Paired(x3, x2, 4, 16, 1, 1) && Paired(x4, x3, 4, 16, 2, 8)
    ensures LaneCell(x4, x0, 4, 0, Num(0, 0, c, h), Num(p, q, r, s))
  {
    hide Paired, Quot, Rem, Num;
    SmallNum(0, c, h);
    SmallNum(0, p, c);
    SmallNum(0, p, s);
    SmallNum(0, p, r);
    SmallNum(0, p, q);
    PairedBits(x4, x3, 4, 16, 2, 8, 0, 0, 0, c, h, p, q, r, s);
    PairedBits(x3, x2, 4, 16, 1, 1, 0, 0, 0, p, c, h, q, r, s);
    PairedBits(x2, x1, 4, 16, 1, 1, 0, 0, 0, p, s, c, h, q, r);
    PairedBits(x1, x0, 4, 16, 1, 1, 0, 0, 0, p, r, s, c, h, q);
    FilesOf(x4, x3, 4, 16, 2, 8);
    FilesOf(x1, x0, 4, 16, 1, 1);
    Place4(c, h, p, q, r, s);
  }

  /** The network of bshuf_trans_byte_elem_SSE_32. */
  method Elements32(mm0: array<Reg>, mm1: array<Reg>)
    requires mm0 != mm1 && File(mm0[..], 4, 16) && File(mm1[..], 4, 16)
    modifies mm0, mm1
    ensures Turned(mm0[..], old(mm0[..]), 4, 16)
  {
    hide Paired, LaneCell, Turned;
    ghost var x0 := mm0[..];
    PairStage(mm0, mm1, 4, 16, 1, 1);
    ghost var x1 := mm1[..];
    FilesOf(x1, x0, 4, 16, 1, 1);
    PairStage(mm1, mm0, 4, 16, 1, 1);
    ghost var x2 := mm0[..];
    FilesOf(x2, x1, 4, 16, 1, 1);
    PairStage(mm0, mm1, 4, 16, 1, 1);
    ghost var x3 := mm1[..];
    FilesOf(x3, x2, 4, 16, 1, 1);
    PairStage(mm1, mm0, 4, 16, 2, 8);
    ghost var x4 := mm0[..];
    FilesOf(x4, x3, 4, 16, 2, 8);
    forall t: bit, b, o | 16 * t < 16 && 0 <= b < 4 && 0 <= o < 16 ensures LaneCell(x4, x0, 4, t, b, o) {
      var b2, b1, b0 := SmallBits(b);
      var o3, o2, o1, o0 := BitsOf(o);
      Pairs4Bits(x0, x1, x2, x3, x4, b1, b0, o3, o2, o1, o0);
    }
    OneLane(x4, x0, 4);
  }

  // Elements of eight bytes.

  lemma {:induction false} Pairs8Bits(x0: seq<Reg>, x1: seq<Reg>, x2: seq<Reg>, x3: seq<Reg>, x4: seq<Reg>,
      b: bit, c: bit, h: bit, p: bit, q: bit, r: bit, s: bit)
    requires Paired(x1, x0, 8, 16, 1, 1) && Paired(x2, x1, 8, 16, 1, 1) && Paired(x3, x2, 8, 16, 2, 4) && Paired(x4, x3, 8, 16, 4, 8)
    ensures LaneCell(x4, x0, 8, 0, Num(0, b, c, h), Num(p, q, r, s))
  {
    hide Paired, Quot, Rem, Num;
    SmallNum(b, c, h);
    SmallNum(p, b, c);
    SmallNum(p, q, b);
    SmallNum(p, q, s);
    SmallNum(p, q, r);
    PairedBits(x4, x3, 8, 16, 4, 8, 0, 0, b, c, h, p, q, r, s);
    PairedBits(x3, x2, 8, 16, 2, 4, 0, 0, p, b, c, h, q, r, s);
    PairedBits(x2, x1, 8, 16, 1, 1, 0, 0, p, q, b, c, h, r, s);
    PairedBits(x1, x0, 8, 16, 1, 1, 0, 0, p, q, s, b, c, h, r);
    FilesOf(x4, x3, 8, 16, 4, 8);
    FilesOf(x1, x0, 8, 16, 1, 1);
    Place8(b, c, h, p, q, r, s);
  }

  /** The network of bshuf_trans_byte_elem_SSE_64. */
  method Elements64(mm0: array<Reg>, mm1: array<Reg>)
    requires mm0 != mm1 && File(mm0[..], 8, 16) && File(mm1[..], 8, 16)
    modifies mm0, mm1
    ensures Turned(mm0[..], old(mm0[..]), 8, 16)
  {
    hide Paired, LaneCell, Turned;
    ghost var x0 := mm0[..];
    PairStage(mm0, mm1, 8, 16, 1, 1);
    ghost var x1 := mm1[..];
    FilesOf(x1, x0, 8, 16, 1, 1);
    PairStage(mm1, mm0, 8, 16, 1, 1);
    ghost var x2 := mm0[..];
    FilesOf(x2, x1, 8, 16, 1, 1);
    PairStage(mm0, mm1, 8, 16, 2, 4);
    ghost var x3 := mm1[..];
    FilesOf(x3, x2, 8, 16, 2, 4);
    PairStage(mm1, mm0, 8, 16, 4, 8);
    ghost var x4 := mm0[..];
    FilesOf(x4, x3, 8, 16, 4, 8);
    forall t: bit, b, o | 16 * t < 16 && 0 <= b < 8 && 0 <= o < 16 ensures LaneCell(x4, x0, 8, t, b, o) {
      var b2, b1, b0 := SmallBits(b);
      var o3, o2, o1, o0 := BitsOf(o);
      Pairs8Bits(x0, x1, x2, x3, x4, b2, b1, b0, o3, o2, o1, o0);
    }
    OneLane(x4, x0, 8);
  }

  // ----- rows of bits -----

  /** Each half of a file of eight has its neighbours unpacked: low halves into its first two registers, high into its last. */
  ghost predicate HalvesGathered(to: seq<Reg>, from: seq<Reg>, w: nat) {
    && File(to, 8, w) && File(from, 8, w) && (w == 16 || w == 32)
    && forall half: bit, m: bit :: HalfDone(to, from, half, m)
  }

  ghost predicate HalfDone(to: seq<Reg>, from: seq<Reg>, half: bit, m: bit) {
    var l, k := 4 * half + 2 * m, 4 * half + m;
    && k + 2 < |to| && l + 1 < |from| && |from[l]| == |from[l + 1]| && (|from[l]| == 16 || |from[l]| == 32)
    && to[k] == Unpack(from[l], from[l + 1], 2, 0) && to[k + 2] == Unpack(from[l], from[l + 1], 2, 1)
  }

  method HalvesStage(from: array<Reg>, to: array<Reg>, w: nat)
    requires from != to && File(from[..], 8, w) && File(to[..], 8, w) && (w == 16 || w == 32)
    modifies to
    ensures HalvesGathered(to[..], from[..], w)
  {
    hide Unpack;
    ghost var x := from[..];
    for kk := 0 to 2
      invariant from[..] == x && File(to[..], 8, w)
      invariant forall half: bit, m: bit :: half < kk ==> HalfDone(to[..], x, half, m)
    {
      for mm := 0 to 2
        invariant from[..] == x && File(to[..], 8, w)
        invariant forall half: bit, m: bit :: half < kk || (half == kk && m < mm) ==> HalfDone(to[..], x, half, m)
      {
        ghost var was := to[..];
        to[kk * 4 + mm] := Unpack(from[kk * 4 + mm * 2], from[kk * 4 + mm * 2 + 1], 2, 0);
        to[kk * 4 + mm + 2] := Unpack(from[kk * 4 + mm * 2], from[kk * 4 + mm * 2 + 1], 2, 1);
        HalvesKept(to[..], was, x, kk, mm);
      }
    }
  }

  lemma {:induction false} HalvesKept(now: seq<Reg>, was: seq<Reg>, x: seq<Reg>, kk: bit, mm: bit)
    requires |now| == |was| == 8 && |x| == 8 && |x[4 * kk + 2 * mm]| == |x[4 * kk + 2 * mm + 1]|
    requires |x[4 * kk + 2 * mm]| == 16 || |x[4 * kk + 2 * mm]| == 32
    requires now == was[4 * kk + mm := Unpack(x[4 * kk + 2 * mm], x[4 * kk + 2 * mm + 1], 2, 0)]
                       [4 * kk + mm + 2 := Unpack(x[4 * kk + 2 * mm], x[4 * kk + 2 * mm + 1], 2, 1)]
    requires forall half: bit, m: bit :: half < kk || (half == kk && m < mm) ==> HalfDone(was, x, half, m)
    ensures forall half: bit, m: bit :: half < kk || (half == kk && m < mm + 1) ==> HalfDone(now, x, half, m)
  {
    hide Unpack;
    forall half: bit, m: bit | half < kk || (half == kk && m < mm + 1) ensures HalfDone(now, x, half, m) {
      if half < kk || m < mm {
        assert HalfDone(was, x, half, m);
      }
    }
  }

  lemma {:induction false} HalvesBits(to: seq<Reg>, from: seq<Reg>, w: nat, half: bit, h: bit, m: bit, t: bit, p: bit, q: bit, r: bit, s: bit)
    requires HalvesGathered(to, from, w) && 16 * t < w
    ensures HalfCell(to, from, half, h, m, t, p, q, r, s)
  {
    hide Unpack, Num;
    assert HalfDone(to, from, half, m);
    NumIs(0, half, h, m);
    NumIs(0, half, m, r);
    UnpackBits(from[4 * half + 2 * m], from[4 * half + 2 * m + 1], 2, h, t, p, q, r, s);
  }

  ghost predicate HalfCell(to: seq<Reg>, from: seq<Reg>, half: bit, h: bit, m: bit, t: bit, p: bit, q: bit, r: bit, s: bit) {
    && Num(0, half, h, m) < |to| && Num(0, half, m, r) < |from|
    && 16 * t + Num(p, q, r, s) < |to[Num(0, half, h, m)]| && 16 * t + Num(h, p, q, s) < |from[Num(0, half, m, r)]|
    && to[Num(0, half, h, m)][16 * t + Num(p, q, r, s)] == from[Num(0, half, m, r)][16 * t + Num(h, p, q, s)]
  }

  /** Register `k` of `y` holds columns 2 k and 2 k + 1 of the eight rows of `x`, lane by lane. */
  ghost predicate RowsTurned(y: seq<Reg>, x: seq<Reg>, w: nat) {
    && File(y, 8, w) && File(x, 8, w) && (w == 16 || w == 32)
    && forall t: bit, h: bit, k, r :: 16 * t < w && 0 <= k < 8 && 0 <= r < 8 ==> RowCell(y, x, t, h, k, r)
  }

  ghost predicate RowCell(y: seq<Reg>, x: seq<Reg>, t: bit, h: bit, k: nat, r: nat) {
    && k < |y| && r < |x| && 16 * t + 8 * h + r < |y[k]| && 16 * t + 2 * k + h < |x[r]|
    && y[k][16 * t + 8 * h + r] == x[r][16 * t + 2 * k + h]
  }

  lemma {:induction false} RowBits(x0: seq<Reg>, x1: seq<Reg>, x2: seq<Reg>, x3: seq<Reg>, w: nat, t: bit, h: bit,
      a: bit, b: bit, c: bit, d: bit, e: bit, f: bit)
    requires Gathered(x1, x0, 8, w, 1) && HalvesGathered(x2, x1, w) && Paired(x3, x2, 8, w, 1, 4) && 16 * t < w
    ensures RowCell(x3, x0, t, h, Num(0, a, b, c), Num(0, d, e, f))
  {
    hide Paired, Gathered, HalvesGathered, Num;
    SmallNum(a, b, c);
    SmallNum(d, e, f);
    PairedBits(x3, x2, 8, w, 1, 4, t, 0, a, b, c, h, d, e, f);
    HalvesBits(x2, x1, w, a, b, d, t, c, h, e, f);
    GatheredBits(x1, x0, 8, w, 1, t, a, 0, d, e, b, c, h, f);
    FilesOf(x3, x2, 8, w, 1, 4);
    GatheredFiles(x1, x0, 8, w, 1);
    NumIs(h, d, e, f);
    NumIs(0, d, e, f);
    NumIs(0, a, b, c);
    NumIs(a, b, c, h);
  }

  /** The three stages that both bit-row transposes share. */
  method TurnRows(mm0: array<Reg>, mm1: array<Reg>, w: nat)
    requires mm0 != mm1 && File(mm0[..], 8, w) && File(mm1[..], 8, w) && (w == 16 || w == 32)
    modifies mm0, mm1
    ensures RowsTurned(mm1[..], old(mm0[..]), w)
  {
    hide Paired, Gathered, HalvesGathered, RowCell;
    ghost var x0 := mm0[..];
    GatherStage(mm0, mm1, 8, w, 1);
    ghost var x1 := mm1[..];
    GatheredFiles(x1, x0, 8, w, 1);
    HalvesStage(mm1, mm0, w);
    ghost var x2 := mm0[..];
    HalvesFiles(x2, x1, w);
    PairStage(mm0, mm1, 8, w, 1, 4);
    ghost var x3 := mm1[..];
    FilesOf(x3, x2, 8, w, 1, 4);
    forall t: bit, h: bit, k, r | 16 * t < w && 0 <= k < 8 && 0 <= r < 8 ensures RowCell(x3, x0, t, h, k, r) {
      var a, b, c := SmallBits(k);
      var d, e, f := SmallBits(r);
      RowBits(x0, x1, x2, x3, w, t, h, a, b, c, d, e, f);
    }
  }

  lemma {:induction false} HalvesFiles(to: seq<Reg>, from: seq<Reg>, w: nat)
    requires HalvesGathered(to, from, w)
    ensures File(to, 8, w) && File(from, 8, w)
  {
  }

  // ----- four groups of rows at a time -----

  /** Columns of 32 rows from the columns of four times eight: register 2 l + h of `z` is column 16 l + h. */
  ghost predicate Quartered(z: seq<Reg>, y: seq<Reg>) {
    && File(z, 4, 32) && File(y, 4, 32)
    && forall l: bit, h: bit, g, r :: 0 <= g < 4 && 0 <= r < 8 ==> QuarterCell(z, y, l, h, g, r)
  }

  ghost predicate QuarterCell(z: seq<Reg>, y: seq<Reg>, l: bit, h: bit, g: nat, r: nat) {
    && 2 * l + h < |z| && g < |y| && 8 * g + r < |z[2 * l + h]| && 16 * l + 8 * h + r < |y[g]|
    && z[2 * l + h][8 * g + r] == y[g][16 * l + 8 * h + r]
  }

  /** The unpacks of quad words and the lane permutes of bshuf_trans_byte_bitrow_avx2. */
  method Quarter(y: seq<Reg>) returns (z: seq<Reg>)
    requires File(y, 4, 32)
    ensures Quartered(z, y)
  {
    hide Unpack, JoinLanes, QuarterCell;
    var u0, u1, u2, u3 := Unpack(y[0], y[1], 8, 0), Unpack(y[2], y[3], 8, 0), Unpack(y[0], y[1], 8, 1), Unpack(y[2], y[3], 8, 1);
    z := [JoinLanes(u0, u1, 0), JoinLanes(u2, u3, 0), JoinLanes(u0, u1, 1), JoinLanes(u2, u3, 1)];
    forall l: bit, h: bit, g, r | 0 <= g < 4 && 0 <= r < 8 ensures QuarterCell(z, y, l, h, g, r) {
      var a, b, c := SmallBits(g);
      var d, e, f := SmallBits(r);
      QuarterBits(z, y, l, h, b, c, d, e, f);
    }
  }

  lemma {:induction false} QuarterBits(z: seq<Reg>, y: seq<Reg>, l: bit, h: bit, b: bit, c: bit, d: bit, e: bit, f: bit)
    requires File(y, 4, 32) && |z| == 4
    requires z[2 * l + h] == JoinLanes(Unpack(y[0], y[1], 8, h), Unpack(y[2], y[3], 8, h), l)
    ensures QuarterCell(z, y, l, h, Num(0, 0, b, c), Num(0, d, e, f))
  {
    hide Unpack, JoinLanes, Num;
    var u, v := Unpack(y[0], y[1], 8, h), Unpack(y[2], y[3], 8, h);
    JoinBits(u, v, l, b, Num(c, d, e, f));
    UnpackBits(y[2 * b], y[2 * b + 1], 8, h, l, c, d, e, f);
    NumIs(0, 0, b, c);
    NumIs(0, d, e, f);
    NumIs(c, d, e, f);
    NumIs(h, d, e, f);
    assert (if b == 1 then v else u) == Unpack(y[2 * b], y[2 * b + 1], 8, h);
  }
}
