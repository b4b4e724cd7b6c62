// The transposing networks of blosc/shuffle-sse2.c and blosc/shuffle-avx2.c: what is loaded as consecutive
// bytes of elements leaves as registers of one byte of each element, and back.

module ShuffleKernels {
  import opened Registers
  import opened Networks

  /**
   * Register `b` of `y` holds byte `b` of every element, when `x` holds the elements one after the other:
   * `size` bytes to an element, as many elements as a register has bytes.
   */
  ghost predicate Turned(y: seq<Reg>, x: seq<Reg>, size: nat, w: nat) {
    && File(y, size, w) && File(x, size, w) && Sizes(size, w)
    && forall b, e :: 0 <= b < size && 0 <= e < w ==> Cell(y, x, size, w, b, e)
  }

  ghost predicate Cell(y: seq<Reg>, x: seq<Reg>, size: nat, w: nat, b: nat, e: nat)
    requires w > 0
  {
    var i := e * size + b;
    && b < |y| && e < |y[b]| && Quot(i, w) < |x| && Rem(i, w) < |x[Quot(i, w)]|
    && y[b][e] == x[Quot(i, w)][Rem(i, w)]
  }

  // ----- within one register -----

  /** _mm_unpacklo_epi8 of a register and its swapped halves. */
  function Interleaved(x: Reg): (y: Reg)
    requires |x| == 16 || |x| == 32
    ensures |y| == |x|
  {
    Unpack(x, ShuffleDwords(x, 0x4e), 1, 0)
  }

  lemma {:induction false} InterleavedBits(x: Reg, t: bit, p: bit, q: bit, r: bit, s: bit)
    requires (|x| == 16 || |x| == 32) && 16 * t < |x|
    ensures Interleaved(x)[16 * t + Num(p, q, r, s)] == x[16 * t + Num(s, p, q, r)]
  {
    hide Unpack, ShuffleDwords, Num;
    UnpackBits(x, ShuffleDwords(x, 0x4e), 1, 0, t, p, q, r, s);
    DwordsBits(x, t, 0, p, q, r);
  }

  /** The same by words. */
  function InterleavedWords(x: Reg): (y: Reg)
    requires |x| == 16 || |x| == 32
    ensures |y| == |x|
  {
    Unpack(x, ShuffleDwords(x, 0x4e), 2, 0)
  }

  lemma {:induction false} InterleavedWordsBits(x: Reg, t: bit, p: bit, q: bit, r: bit, s: bit)
    requires (|x| == 16 || |x| == 32) && 16 * t < |x|
    ensures InterleavedWords(x)[16 * t + Num(p, q, r, s)] == x[16 * t + Num(r, p, q, s)]
  {
    hide Unpack, ShuffleDwords, Num;
    UnpackBits(x, ShuffleDwords(x, 0x4e), 2, 0, t, p, q, r, s);
    DwordsBits(x, t, 0, p, q, s);
  }

  /** shuffle4's first loop: the 4 by 4 transpose of each lane. */
  function Square(x: Reg): (y: Reg)
    requires |x| == 16 || |x| == 32
    ensures |y| == |x|
  {
    InterleavedWords(Unpack(ShuffleDwords(x, 0xd8), ShuffleDwords(x, 0x8d), 1, 0))
  }

  lemma {:induction false} SquareBits(x: Reg, t: bit, p: bit, q: bit, r: bit, s: bit)
    requires (|x| == 16 || |x| == 32) && 16 * t < |x|
    ensures Square(x)[16 * t + Num(p, q, r, s)] == x[16 * t + Num(r, s, p, q)]
  {
    hide Unpack, ShuffleDwords, Num, InterleavedWords;
    var a, b := ShuffleDwords(x, 0xd8), ShuffleDwords(x, 0x8d);
    InterleavedWordsBits(Unpack(a, b, 1, 0), t, p, q, r, s);
    UnpackBits(a, b, 1, 0, t, r, p, q, s);
    DwordsBits(x, t, 0, r, p, q);
  }

  /** The word and double word shuffles of shuffle2. */
  function DealtHead(x: Reg): (y: Reg)
    requires |x| == 16
    ensures |y| == 16
  {
    ShuffleDwords(ShuffleWords(x, 0xd8), 0xd8)
  }

  lemma {:induction false} DealtHeadBits(x: Reg, p: bit, q: bit, r: bit, s: bit)
    requires |x| == 16
    ensures DealtHead(x)[Num(p, q, r, s)] == x[Num(q, r, p, s)]
  {
    hide ShuffleDwords, ShuffleWords, Num;
    DwordsBits(ShuffleWords(x, 0xd8), 0, p, q, r, s);
    WordsBits(x, q, p, r, s);
  }

  /** shuffle2's first loop: even bytes first. */
  function Dealt(x: Reg): (y: Reg)
    requires |x| == 16
    ensures |y| == 16
  {
    var y4 := ShuffleDwords(Interleaved(DealtHead(x)), 0xd8);
    ShuffleDwords(InterleavedWords(y4), 0xd8)
  }

  lemma {:induction false} DealtBits(x: Reg, p: bit, q: bit, r: bit, s: bit)
    requires |x| == 16
    ensures Dealt(x)[Num(p, q, r, s)] == x[Num(q, r, s, p)]
  {
    hide ShuffleDwords, DealtHead, Interleaved, InterleavedWords, Num;
    var y2 := DealtHead(x);
    var y3 := Interleaved(y2);
    var y4 := ShuffleDwords(y3, 0xd8);
    var y5 := InterleavedWords(y4);
    DwordsBits(y5, 0, p, q, r, s);
    InterleavedWordsBits(y4, 0, q, p, r, s);
    DwordsBits(y3, 0, r, q, p, s);
    InterleavedBits(y2, 0, q, r, p, s);
    DealtHeadBits(x, s, q, r, p);
  }

  // ----- across registers: shuffle -----

  /** The same within each lane: every lane of `x` holds sixteen elements. */
  ghost predicate LaneTurned(y: seq<Reg>, x: seq<Reg>, size: nat, w: nat) {
    && File(y, size, w) && File(x, size, w) && Sizes(size, w)
    && forall t: bit, b, o :: 16 * t < w && 0 <= b < size && 0 <= o < 16 ==> LaneCell(y, x, size, t, b, o)
  }

  ghost predicate LaneCell(y: seq<Reg>, x: seq<Reg>, size: nat, t: bit, b: nat, o: nat) {
    var i := o * size + b;
    && b < |y| && 16 * t + o < |y[b]| && Quot(i, 16) < |x| && 16 * t + Rem(i, 16) < |x[Quot(i, 16)]|
    && y[b][16 * t + o] == x[Quot(i, 16)][16 * t + Rem(i, 16)]
  }

  /** With one lane there is no more to do. */
  lemma {:induction false} OneLane(y: seq<Reg>, x: seq<Reg>, size: nat)
    requires LaneTurned(y, x, size, 16)
    ensures Turned(y, x, size, 16)
  {
    hide Quot, Rem;
    forall b, e | 0 <= b < size && 0 <= e < 16 ensures Cell(y, x, size, 16, b, e) {
      assert LaneCell(y, x, size, 0, b, e);
    }
  }

  lemma {:induction false} FilesOf(to: seq<Reg>, from: seq<Reg>, n: nat, w: nat, d: nat, g: nat)
    requires Paired(to, from, n, w, d, g)
    ensures File(to, n, w) && File(from, n, w) && Sizes(n, w)
  {
  }

  // Sixteen bytes to an element.

  lemma {:induction false} Place16(t: bit, b: nat, o: nat)
    requires b < 16 && o < 16
    ensures Quot(o * 16 + b, 16) == o && Rem(o * 16 + b, 16) == b
  {
    hide Quot, Rem;
    Parts(o * 16 + b, o, b, 16);
  }

  lemma {:induction false} Lane16Bits(x0: seq<Reg>, x1: seq<Reg>, x2: seq<Reg>, x3: seq<Reg>, x4: seq<Reg>, w: nat, t: bit,
      a: bit, b: bit, c: bit, h: bit, p: bit, q: bit, r: bit, s: bit)
    requires Paired(x1, x0, 16, w, 1, 1) && Paired(x2, x1, 16, w, 2, 2)
    requires Paired(x3, x2, 16, w, 4, 4) && Paired(x4, x3, 16, w, 8, 8) && 16 * t < w
    ensures LaneCell(x4, x0, 16, t, Num(a, b, c, h), Num(p, q, r, s))
  {
    hide Paired, Num, Quot, Rem;
    PairedBits(x4, x3, 16, w, 8, 8, t, a, b, c, h, p, q, r, s);
    PairedBits(x3, x2, 16, w, 4, 4, t, p, a, b, c, h, q, r, s);
    PairedBits(x2, x1, 16, w, 2, 2, t, p, q, a, b, c, h, r, s);
    PairedBits(x1, x0, 16, w, 1, 1, t, p, q, r, a, b, c, h, s);
    FilesOf(x4, x3, 16, w, 8, 8);
    FilesOf(x1, x0, 16, w, 1, 1);
    Place16(t, Num(a, b, c, h), Num(p, q, r, s));
  }

  /** The four loops of shuffle16 and of the tiled shuffle. */
  method Lanes16(mm0: array<Reg>, mm1: array<Reg>, w: nat)
    requires mm0 != mm1 && File(mm0[..], 16, w) && File(mm1[..], 16, w) && Sizes(16, w)
    modifies mm0, mm1
    ensures LaneTurned(mm0[..], old(mm0[..]), 16, w) && File(mm1[..], 16, w)
  {
    hide Paired, LaneCell;
    ghost var x0 := mm0[..];
    PairStage(mm0, mm1, 16, w, 1, 1);
    ghost var x1 := mm1[..];
    FilesOf(x1, x0, 16, w, 1, 1);
    PairStage(mm1, mm0, 16, w, 2, 2);
    ghost var x2 := mm0[..];
    FilesOf(x2, x1, 16, w, 2, 2);
    PairStage(mm0, mm1, 16, w, 4, 4);
    ghost var x3 := mm1[..];
    FilesOf(x3, x2, 16, w, 4, 4);
    PairStage(mm1, mm0, 16, w, 8, 8);
    ghost var x4 := mm0[..];
    FilesOf(x4, x3, 16, w, 8, 8);
    forall t: bit, b, o | 16 * t < w && 0 <= b < 16 && 0 <= o < 16 ensures LaneCell(x4, x0, 16, t, b, o) {
      var b3, b2, b1, b0 := BitsOf(b);
      var o3, o2, o1, o0 := BitsOf(o);
      Lane16Bits(x0, x1, x2, x3, x4, w, t, b3, b2, b1, b0, o3, o2, o1, o0);
    }
  }

  // Eight bytes to an element.

  lemma {:induction false} Place8(b: bit, c: bit, h: bit, p: bit, q: bit, r: bit, s: bit)
    ensures Quot(Num(p, q, r, s) * 8 + Num(0, b, c, h), 16) == Num(0, p, q, r)
    ensures Rem(Num(p, q, r, s) * 8 + Num(0, b, c, h), 16) == Num(s, b, c, h)
  {
    hide Quot, Rem;
    Parts(Num(p, q, r, s) * 8 + Num(0, b, c, h), Num(0, p, q, r), Num(s, b, c, h), 16);
  }

  lemma {:induction false} SmallNum(b: bit, c: bit, d: bit)
    ensures Num(0, b, c, d) < 8 && Num(0, 0, c, d) < 4 && Num(0, 0, 0, d) < 2
  {
  }

  ghost predicate Interleaves(y: seq<Reg>, x: seq<Reg>, w: nat) {
    File(y, 8, w) && File(x, 8, w) && Sizes(8, w) && forall k :: 0 <= k < 8 ==> y[k] == Interleaved(x[k])
  }

  lemma {:induction false} Lane8Bits(x0: seq<Reg>, x1: seq<Reg>, x2: seq<Reg>, x3: seq<Reg>, x4: seq<Reg>, w: nat, t: bit,
      b: bit, c: bit, h: bit, p: bit, q: bit, r: bit, s: bit)
    requires Interleaves(x1, x0, w) && Paired(x2, x1, 8, w, 1, 2)
    requires Paired(x3, x2, 8, w, 2, 4) && Paired(x4, x3, 8, w, 4, 8) && 16 * t < w
    ensures LaneCell(x4, x0, 8, t, Num(0, b, c, h), Num(p, q, r, s))
  {
    hide Paired, Quot, Rem, Interleaved, Num;
    SmallNum(b, c, h);
    SmallNum(p, b, c);
    SmallNum(p, q, b);
    SmallNum(p, q, r);
    PairedBits(x4, x3, 8, w, 4, 8, t, 0, b, c, h, p, q, r, s);
    PairedBits(x3, x2, 8, w, 2, 4, t, 0, p, b, c, h, q, r, s);
    PairedBits(x2, x1, 8, w, 1, 2, t, 0, p, q, b, c, h, r, s);
    InterleavedBits(x0[Num(0, p, q, r)], t, b, c, h, s);
    FilesOf(x4, x3, 8, w, 4, 8);
    Place8(b, c, h, p, q, r, s);
  }

  /** The number of a byte of an element of eight, four or two. */
  lemma {:induction false} SmallBits(n: nat) returns (b: bit, c: bit, d: bit)
    requires n < 8
    ensures n == Num(0, b, c, d) && (n < 4 ==> b == 0) && (n < 2 ==> c == 0)
  {
    var a: bit;
    a, b, c, d := BitsOf(n);
  }

  method Lanes8(mm0: array<Reg>, mm1: array<Reg>, w: nat)
    requires mm0 != mm1 && File(mm0[..], 8, w) && File(mm1[..], 8, w) && Sizes(8, w)
    modifies mm0, mm1
    ensures LaneTurned(mm0[..], old(mm0[..]), 8, w) && File(mm1[..], 8, w)
  {
    hide Paired, LaneCell, Interleaved;
    ghost var x0 := mm0[..];
    for k := 0 to 8
      invariant mm0[..] == x0 && File(mm1[..], 8, w) && forall i :: 0 <= i < k ==> mm1[i] == Interleaved(x0[i])
    {
      mm1[k] := Unpack(mm0[k], ShuffleDwords(mm0[k], 0x4e), 1, 0);
      InterleavedIs(x0[k]);
    }
    ghost var x1 := mm1[..];
    PairStage(mm1, mm0, 8, w, 1, 2);
    ghost var x2 := mm0[..];
    FilesOf(x2, x1, 8, w, 1, 2);
    PairStage(mm0, mm1, 8, w, 2, 4);
    ghost var x3 := mm1[..];
    FilesOf(x3, x2, 8, w, 2, 4);
    PairStage(mm1, mm0, 8, w, 4, 8);
    ghost var x4 := mm0[..];
    FilesOf(x4, x3, 8, w, 4, 8);
    forall t: bit, b, o | 16 * t < w && 0 <= b < 8 && 0 <= o < 16 ensures LaneCell(x4, x0, 8, t, b, o) {
      var b2, b1, b0 := SmallBits(b);
      var o3, o2, o1, o0 := BitsOf(o);
      Lane8Bits(x0, x1, x2, x3, x4, w, t, b2, b1, b0, o3, o2, o1, o0);
    }
  }

  lemma {:induction false} InterleavedIs(x: Reg)
    requires |x| == 16 || |x| == 32
    ensures Interleaved(x) == Unpack(x, ShuffleDwords(x, 0x4e), 1, 0)
  {
  }

  // Four bytes to an element.

  lemma {:induction false} Place4(c: bit, h: bit, p: bit, q: bit, r: bit, s: bit)
    ensures Quot(Num(p, q, r, s) * 4 + Num(0, 0, c, h), 16) == Num(0, 0, p, q)
    ensures Rem(Num(p, q, r, s) * 4 + Num(0, 0, c, h), 16) == Num(r, s, c, h)
  {
    hide Quot, Rem;
    Parts(Num(p, q, r, s) * 4 + Num(0, 0, c, h), Num(0, 0, p, q), Num(r, s, c, h), 16);
  }

  ghost predicate Squares(y: seq<Reg>, x: seq<Reg>, w: nat) {
    File(y, 4, w) && File(x, 4, w) && Sizes(4, w) && forall k :: 0 <= k < 4 ==> y[k] == Square(x[k])
  }

  lemma {:induction false} Lane4Bits(x0: seq<Reg>, x1: seq<Reg>, x2: seq<Reg>, x3: seq<Reg>, w: nat, t: bit,
      c: bit, h: bit, p: bit, q: bit, r: bit, s: bit)
    requires Squares(x1, x0, w) && Paired(x2, x1, 4, w, 1, 4) && Paired(x3, x2, 4, w, 2, 8) && 16 * t < w
    ensures LaneCell(x3, x0, 4, t, Num(0, 0, c, h), Num(p, q, r, s))
  {
    hide Paired, Quot, Rem, Square, Num;
    SmallNum(0, c, h);
    SmallNum(0, p, c);
    SmallNum(0, p, q);
    PairedBits(x3, x2, 4, w, 2, 8, t, 0, 0, c, h, p, q, r, s);
    PairedBits(x2, x1, 4, w, 1, 4, t, 0, 0, p, c, h, q, r, s);
    SquareBits(x0[Num(0, 0, p, q)], t, c, h, r, s);
    FilesOf(x3, x2, 4, w, 2, 8);
    Place4(c, h, p, q, r, s);
  }

  method Lanes4(mm0: array<Reg>, mm1: array<Reg>, w: nat)
    requires mm0 != mm1 && File(mm0[..], 4, w) && File(mm1[..], 4, w) && Sizes(4, w)
    modifies mm0, mm1
    ensures LaneTurned(mm0[..], old(mm0[..]), 4, w) && File(mm1[..], 4, w)
  {
    hide Paired, LaneCell, Square;
    ghost var x0 := mm0[..];
    for j := 0 to 4
      invariant File(mm0[..], 4, w) && File(mm1[..], 4, w)
      invariant forall i :: 0 <= i < j ==> mm0[i] == Square(x0[i])
      invariant forall i :: j <= i < 4 ==> mm0[i] == x0[i]
    {
      SquareIs(x0[j]);
      mm1[j] := ShuffleDwords(mm0[j], 0xd8);
      mm0[j] := ShuffleDwords(mm0[j], 0x8d);
      mm0[j] := Unpack(mm1[j], mm0[j], 1, 0);
      mm1[j] := ShuffleDwords(mm0[j], 0x4e);
      mm0[j] := Unpack(mm0[j], mm1[j], 2, 0);
    }
    ghost var x1 := mm0[..];
    PairStage(mm0, mm1, 4, w, 1, 4);
    ghost var x2 := mm1[..];
    FilesOf(x2, x1, 4, w, 1, 4);
    PairStage(mm1, mm0, 4, w, 2, 8);
    ghost var x3 := mm0[..];
    FilesOf(x3, x2, 4, w, 2, 8);
    forall t: bit, b, o | 16 * t < w && 0 <= b < 4 && 0 <= o < 16 ensures LaneCell(x3, x0, 4, t, b, o) {
      var b2, b1, b0 := SmallBits(b);
      var o3, o2, o1, o0 := BitsOf(o);
      Lane4Bits(x0, x1, x2, x3, w, t, b1, b0, o3, o2, o1, o0);
    }
  }

  lemma {:induction false} SquareIs(x: Reg)
    requires |x| == 16 || |x| == 32
    ensures var c := Unpack(ShuffleDwords(x, 0xd8), ShuffleDwords(x, 0x8d), 1, 0);
      Square(x) == Unpack(c, ShuffleDwords(c, 0x4e), 2, 0)
  {
  }

  // Two bytes to an element.

  lemma {:induction false} Place2(h: bit, p: bit, q: bit, r: bit, s: bit)
    ensures Quot(Num(p, q, r, s) * 2 + Num(0, 0, 0, h), 16) == Num(0, 0, 0, p)
    ensures Rem(Num(p, q, r, s) * 2 + Num(0, 0, 0, h), 16) == Num(q, r, s, h)
  {
    hide Quot, Rem;
    Parts(Num(p, q, r, s) * 2 + Num(0, 0, 0, h), Num(0, 0, 0, p), Num(q, r, s, h), 16);
  }

  ghost predicate Deals(y: seq<Reg>, x: seq<Reg>) {
    File(y, 2, 16) && File(x, 2, 16) && forall k :: 0 <= k < 2 ==> y[k] == Dealt(x[k])
  }

  lemma {:induction false} Lane2Bits(x0: seq<Reg>, x1: seq<Reg>, x2: seq<Reg>, h: bit, p: bit, q: bit, r: bit, s: bit)
    requires Deals(x1, x0) && Paired(x2, x1, 2, 16, 1, 8)
    ensures LaneCell(x2, x0, 2, 0, Num(0, 0, 0, h), Num(p, q, r, s))
  {
    hide Paired, Quot, Rem, Dealt, Num;
    SmallNum(0, 0, h);
    SmallNum(0, 0, p);
    PairedBits(x2, x1, 2, 16, 1, 8, 0, 0, 0, 0, h, p, q, r, s);
    DealtBits(x0[Num(0, 0, 0, p)], h, q, r, s);
    FilesOf(x2, x1, 2, 16, 1, 8);
    Place2(h, p, q, r, s);
  }

  method DealOne(mm0: array<Reg>, mm1: array<Reg>, k: nat)
    requires mm0 != mm1 && File(mm0[..], 2, 16) && File(mm1[..], 2, 16) && k < 2
    modifies mm0, mm1
    ensures mm0[..] == old(mm0[..])[k := Dealt(old(mm0[k]))] && File(mm1[..], 2, 16)
  {
    hide Unpack, ShuffleDwords, ShuffleWords, Dealt;
    DealtIs(mm0[k]);
    mm0[k] := ShuffleWords(mm0[k], 0xd8);
    mm0[k] := ShuffleDwords(mm0[k], 0xd8);
    mm1[k] := ShuffleDwords(mm0[k], 0x4e);
    mm0[k] := Unpack(mm0[k], mm1[k], 1, 0);
    mm0[k] := ShuffleDwords(mm0[k], 0xd8);
    mm1[k] := ShuffleDwords(mm0[k], 0x4e);
    mm0[k] := Unpack(mm0[k], mm1[k], 2, 0);
    mm0[k] := ShuffleDwords(mm0[k], 0xd8);
  }

  method DealEach(mm0: array<Reg>, mm1: array<Reg>)
    requires mm0 != mm1 && File(mm0[..], 2, 16) && File(mm1[..], 2, 16)
    modifies mm0, mm1
    ensures Deals(mm0[..], old(mm0[..])) && File(mm1[..], 2, 16)
  {
    hide Dealt;
    ghost var x0 := mm0[..];
    for k := 0 to 2
      invariant File(mm0[..], 2, 16) && File(mm1[..], 2, 16)
      invariant forall i :: 0 <= i < k ==> mm0[i] == Dealt(x0[i])
      invariant forall i :: k <= i < 2 ==> mm0[i] == x0[i]
    {
      DealOne(mm0, mm1, k);
    }
  }

  method Lanes2(mm0: array<Reg>, mm1: array<Reg>)
    requires mm0 != mm1 && File(mm0[..], 2, 16) && File(mm1[..], 2, 16)
    modifies mm0, mm1
    ensures LaneTurned(mm1[..], old(mm0[..]), 2, 16) && File(mm0[..], 2, 16)
  {
    hide Paired, LaneCell, Deals;
    ghost var x0 := mm0[..];
    DealEach(mm0, mm1);
    ghost var x1 := mm0[..];
    assert File(x1, 2, 16) by {
      DealFiles(x1, x0);
    }
    PairStage(mm0, mm1, 2, 16, 1, 8);
    ghost var x2 := mm1[..];
    FilesOf(x2, x1, 2, 16, 1, 8);
    forall t: bit, b, o | 16 * t < 16 && 0 <= b < 2 && 0 <= o < 16 ensures LaneCell(x2, x0, 2, t, b, o) {
      var b2, b1, b0 := SmallBits(b);
      var o3, o2, o1, o0 := BitsOf(o);
      Lane2Bits(x0, x1, x2, b0, o3, o2, o1, o0);
    }
  }

  lemma {:induction false} DealFiles(y: seq<Reg>, x: seq<Reg>)
    requires Deals(y, x)
    ensures File(y, 2, 16) && File(x, 2, 16)
  {
  }

  lemma {:induction false} DealtIs(x: Reg)
    requires |x| == 16
    ensures var y2 := ShuffleDwords(ShuffleWords(x, 0xd8), 0xd8);
      var y4 := ShuffleDwords(Unpack(y2, ShuffleDwords(y2, 0x4e), 1, 0), 0xd8);
      Dealt(x) == ShuffleDwords(Unpack(y4, ShuffleDwords(y4, 0x4e), 2, 0), 0xd8)
  {
  }

  // ----- two lanes: the extra permutations of shuffle-avx2.c -----

  const MASK16: seq<nat> := [0, 8, 1, 9, 2, 10, 3, 11, 4, 12, 5, 13, 6, 14, 7, 15]
  const MASK2: seq<nat> := [0, 2, 4, 6, 8, 10, 12, 14, 1, 3, 5, 7, 9, 11, 13, 15]
  const MASK4: seq<nat> := [0, 4, 1, 5, 2, 6, 3, 7]

  lemma {:induction false} Masks(n: nat)
    requires n < 16
    ensures MASK16[n] == Quot(n, 2) + 8 * Rem(n, 2) && MASK2[n] == 2 * Rem(n, 8) + Quot(n, 8)
    ensures n < 8 ==> MASK4[n] == Quot(n, 2) + 4 * Rem(n, 2)
  {
  }

  lemma {:induction false} MaskBits(p: bit, q: bit, r: bit, s: bit)
    ensures MASK16[Num(p, q, r, s)] == Num(s, p, q, r) && MASK2[Num(p, q, r, s)] == Num(q, r, s, p)
  {
    hide Quot, Rem;
    Masks(Num(p, q, r, s));
    Parts(Num(p, q, r, s), 4 * p + 2 * q + r, s, 2);
    Parts(Num(p, q, r, s), p, 4 * q + 2 * r + s, 8);
  }

  lemma {:induction false} MaskDwordBits(t: bit, p: bit, q: bit)
    ensures MASK4[Num(0, t, p, q)] == Num(0, q, t, p)
  {
    hide Quot, Rem;
    SmallNum(t, p, q);
    Masks(Num(0, t, p, q));
    Parts(Num(0, t, p, q), 2 * t + p, q, 2);
  }

  /** ShuffleBytes with a mask that moves bits. */
  lemma {:induction false} BytesBits(x: Reg, t: bit, p: bit, q: bit, r: bit, s: bit)
    requires |x| == 32
    ensures ShuffleBytes(x, MASK16)[16 * t + Num(p, q, r, s)] == x[16 * t + Num(s, p, q, r)]
    ensures ShuffleBytes(x, MASK2)[16 * t + Num(p, q, r, s)] == x[16 * t + Num(q, r, s, p)]
  {
    hide Quot, Rem, Num, MASK16, MASK2;
    MaskBits(p, q, r, s);
    LaneParts(t, Num(p, q, r, s));
  }

  lemma {:induction false} PermuteBits(x: Reg, t: bit, p: bit, q: bit, r: bit, s: bit)
    requires |x| == 32
    ensures PermuteDwords(x, MASK4)[16 * t + Num(p, q, r, s)] == x[16 * q + Num(t, p, r, s)]
  {
    hide Quot, Rem, Num, MASK4;
    MaskDwordBits(t, p, q);
    DwordParts(t, p, q, r, s);
    NumIs(0, t, p, q);
    NumIs(0, q, t, p);
    NumIs(t, p, r, s);
  }

  /** An element's number among 32: which lane, and the place in it. */
  lemma {:induction false} ElementBits(e: nat) returns (t: bit, p: bit, q: bit, r: bit, s: bit)
    requires e < 32
    ensures e == 16 * t + Num(p, q, r, s)
  {
    hide Quot, Rem;
    PartsBack(e, 16);
    t := Quot(e, 16);
    p, q, r, s := BitsOf(Rem(e, 16));
  }

  function Widened16(y: Reg): (z: Reg)
    requires |y| == 32
    ensures |z| == 32
  {
    ShuffleBytes(PermuteQwords(y, 0xd8), MASK16)
  }

  function Widened8(y: Reg): (z: Reg)
    requires |y| == 32
    ensures |z| == 32
  {
    Unpack(PermuteQwords(y, 0xd8), PermuteQwords(y, 0x72), 2, 0)
  }

  lemma {:induction false} WidenedBits(y: Reg, t: bit, p: bit, q: bit, r: bit, s: bit)
    requires |y| == 32
    ensures Widened16(y)[16 * t + Num(p, q, r, s)] == y[16 * s + Num(t, p, q, r)]
    ensures Widened8(y)[16 * t + Num(p, q, r, s)] == y[16 * r + Num(t, p, q, s)]
  {
    hide Num, PermuteQwords, ShuffleBytes, Unpack, MASK16;
    BytesBits(PermuteQwords(y, 0xd8), t, p, q, r, s);
    QwordsBits(y, t, s, p, q, r);
    UnpackBits(PermuteQwords(y, 0xd8), PermuteQwords(y, 0x72), 2, 0, t, p, q, r, s);
    QwordsBits(y, t, 0, p, q, s);
  }

  lemma {:induction false} Wide16(t: bit, p: bit, q: bit, r: bit, s: bit, b: nat)
    requires b < 16
    ensures var i := (16 * t + Num(p, q, r, s)) * 16 + b; Quot(i, 32) == Num(t, p, q, r) && Rem(i, 32) == 16 * s + b
  {
    hide Quot, Rem;
    Parts((16 * t + Num(p, q, r, s)) * 16 + b, Num(t, p, q, r), 16 * s + b, 32);
  }

  lemma {:induction false} Wide8(t: bit, p: bit, q: bit, r: bit, s: bit, b: bit, c: bit, h: bit)
    ensures var i := (16 * t + Num(p, q, r, s)) * 8 + Num(0, b, c, h);
      Quot(i, 32) == Num(0, t, p, q) && Rem(i, 32) == 16 * r + Num(s, b, c, h)
  {
    hide Quot, Rem;
    Parts((16 * t + Num(p, q, r, s)) * 8 + Num(0, b, c, h), Num(0, t, p, q), 16 * r + Num(s, b, c, h), 32);
  }

  lemma {:induction false} Wide4(t: bit, p: bit, q: bit, r: bit, s: bit, c: bit, h: bit)
    ensures var i := (16 * t + Num(p, q, r, s)) * 4 + Num(0, 0, c, h);
      Quot(i, 32) == Num(0, 0, t, p) && Rem(i, 32) == 16 * q + Num(r, s, c, h)
  {
    hide Quot, Rem;
    Parts((16 * t + Num(p, q, r, s)) * 4 + Num(0, 0, c, h), Num(0, 0, t, p), 16 * q + Num(r, s, c, h), 32);
  }

  lemma {:induction false} Wide2(t: bit, p: bit, q: bit, r: bit, s: bit, h: bit)
    ensures var i := (16 * t + Num(p, q, r, s)) * 2 + Num(0, 0, 0, h);
      Quot(i, 32) == Num(0, 0, 0, t) && Rem(i, 32) == 16 * p + Num(q, r, s, h)
  {
    hide Quot, Rem;
    Parts((16 * t + Num(p, q, r, s)) * 2 + Num(0, 0, 0, h), Num(0, 0, 0, t), 16 * p + Num(q, r, s, h), 32);
  }

  ghost predicate Wideneds(z: seq<Reg>, y: seq<Reg>, size: nat) {
    && (size == 16 || size == 8) && File(z, size, 32) && File(y, size, 32)
    && forall k :: 0 <= k < size ==> z[k] == if size == 16 then Widened16(y[k]) else Widened8(y[k])
  }

  lemma {:induction false} Turned16Bits(z: seq<Reg>, y: seq<Reg>, x: seq<Reg>, b: nat, t: bit, p: bit, q: bit, r: bit, s: bit)
    requires Wideneds(z, y, 16) && LaneTurned(y, x, 16, 32) && b < 16
    ensures Cell(z, x, 16, 32, b, 16 * t + Num(p, q, r, s))
  {
    hide Quot, Rem, Num, Widened16, Widened8;
    WidenedBits(y[b], t, p, q, r, s);
    assert LaneCell(y, x, 16, s, b, Num(t, p, q, r));
    Place16(s, b, Num(t, p, q, r));
    Wide16(t, p, q, r, s, b);
  }

  lemma {:induction false} Turned8Bits(z: seq<Reg>, y: seq<Reg>, x: seq<Reg>, b: bit, c: bit, h: bit,
      t: bit, p: bit, q: bit, r: bit, s: bit)
    requires Wideneds(z, y, 8) && LaneTurned(y, x, 8, 32)
    ensures Cell(z, x, 8, 32, Num(0, b, c, h), 16 * t + Num(p, q, r, s))
  {
    hide Quot, Rem, Num, Widened16, Widened8;
    SmallNum(b, c, h);
    WidenedBits(y[Num(0, b, c, h)], t, p, q, r, s);
    assert LaneCell(y, x, 8, r, Num(0, b, c, h), Num(t, p, q, s));
    Place8(b, c, h, t, p, q, s);
    Wide8(t, p, q, r, s, b, c, h);
  }

  ghost predicate Permutes(z: seq<Reg>, y: seq<Reg>) {
    File(z, 4, 32) && File(y, 4, 32) && forall k :: 0 <= k < 4 ==> z[k] == PermuteDwords(y[k], MASK4)
  }

  lemma {:induction false} Turned4Bits(z: seq<Reg>, y: seq<Reg>, x: seq<Reg>, c: bit, h: bit,
      t: bit, p: bit, q: bit, r: bit, s: bit)
    requires Permutes(z, y) && LaneTurned(y, x, 4, 32)
    ensures Cell(z, x, 4, 32, Num(0, 0, c, h), 16 * t + Num(p, q, r, s))
  {
    hide Quot, Rem, Num, PermuteDwords, MASK4;
    SmallNum(0, c, h);
    PermuteBits(y[Num(0, 0, c, h)], t, p, q, r, s);
    assert LaneCell(y, x, 4, q, Num(0, 0, c, h), Num(t, p, r, s));
    Place4(c, h, t, p, r, s);
    Wide4(t, p, q, r, s, c, h);
  }

  /** shuffle16_avx2's last loop. */
  method Widen16(mm0: array<Reg>, ghost x: seq<Reg>)
    requires LaneTurned(mm0[..], x, 16, 32)
    modifies mm0
    ensures Turned(mm0[..], x, 16, 32)
  {
    hide LaneCell, Cell, ShuffleBytes, PermuteQwords, MASK16;
    MaskOk();
    ghost var y := mm0[..];
    for k := 0 to 16
      invariant File(mm0[..], 16, 32)
      invariant forall i :: 0 <= i < k ==> mm0[i] == Widened16(y[i])
      invariant forall i :: k <= i < 16 ==> mm0[i] == y[i]
    {
      mm0[k] := PermuteQwords(mm0[k], 0xd8);
      mm0[k] := ShuffleBytes(mm0[k], MASK16);
    }
    ghost var z := mm0[..];
    forall b, e | 0 <= b < 16 && 0 <= e < 32 ensures Cell(z, x, 16, 32, b, e) {
      var t, p, q, r, s := ElementBits(e);
      Turned16Bits(z, y, x, b, t, p, q, r, s);
    }
  }

  /** shuffle8_avx2's last loop. */
  method Widen8(mm0: array<Reg>, mm1: array<Reg>, ghost x: seq<Reg>)
    requires mm0 != mm1 && LaneTurned(mm0[..], x, 8, 32) && File(mm1[..], 8, 32)
    modifies mm0, mm1
    ensures Turned(mm0[..], x, 8, 32)
  {
    hide LaneCell, Cell, Unpack, PermuteQwords;
    ghost var y := mm0[..];
    for k := 0 to 8
      invariant File(mm0[..], 8, 32) && File(mm1[..], 8, 32)
      invariant forall i :: 0 <= i < k ==> mm0[i] == Widened8(y[i])
      invariant forall i :: k <= i < 8 ==> mm0[i] == y[i]
    {
      mm1[k] := PermuteQwords(mm0[k], 0x72);
      mm0[k] := PermuteQwords(mm0[k], 0xd8);
      mm0[k] := Unpack(mm0[k], mm1[k], 2, 0);
    }
    ghost var z := mm0[..];
    forall b, e | 0 <= b < 8 && 0 <= e < 32 ensures Cell(z, x, 8, 32, b, e) {
      var b2, b1, b0 := SmallBits(b);
      var t, p, q, r, s := ElementBits(e);
      Turned8Bits(z, y, x, b2, b1, b0, t, p, q, r, s);
    }
  }

  /** shuffle4_avx2's last loop. */
  method Widen4(mm0: array<Reg>, ghost x: seq<Reg>)
    requires LaneTurned(mm0[..], x, 4, 32)
    modifies mm0
    ensures Turned(mm0[..], x, 4, 32)
  {
    hide LaneCell, Cell, PermuteDwords, MASK4;
    MaskOk();
    ghost var y := mm0[..];
    for k := 0 to 4
      invariant File(mm0[..], 4, 32)
      invariant forall i :: 0 <= i < k ==> mm0[i] == PermuteDwords(y[i], MASK4)
      invariant forall i :: k <= i < 4 ==> mm0[i] == y[i]
    {
      mm0[k] := PermuteDwords(mm0[k], MASK4);
    }
    ghost var z := mm0[..];
    forall b, e | 0 <= b < 4 && 0 <= e < 32 ensures Cell(z, x, 4, 32, b, e) {
      var b2, b1, b0 := SmallBits(b);
      var t, p, q, r, s := ElementBits(e);
      Turned4Bits(z, y, x, b1, b0, t, p, q, r, s);
    }
  }

  lemma {:induction false} MaskOk()
    ensures |MASK4| == 8 && forall k :: 0 <= k < 8 ==> MASK4[k] < 8
    ensures |MASK16| == |MASK2| == 16 && forall k :: 0 <= k < 16 ==> MASK16[k] < 16 && MASK2[k] < 16
  {
  }

  /** shuffle2_avx2: the bytes of each lane dealt, then quad words and lanes exchanged. */
  function DealtWide(x0: Reg, x1: Reg): (y: seq<Reg>)
    requires |x0| == |x1| == 32
    ensures File(y, 2, 32)
  {
    var a := PermuteQwords(ShuffleBytes(x0, MASK2), 0xd8);
    var b := PermuteQwords(ShuffleBytes(x1, MASK2), 0x8d);
    [BlendLanes(a, b), PermuteQwords(BlendLanes(b, a), 0x4e)]
  }

  /** Bytes dealt, then quad words exchanged between the lanes. */
  lemma {:induction false} DealtQwords(x: Reg, t: bit, p: bit, q: bit, r: bit, s: bit)
    requires |x| == 32 && |MASK2| == 16 && forall k :: 0 <= k < 16 ==> MASK2[k] < 16
    ensures PermuteQwords(ShuffleBytes(x, MASK2), 0xd8)[16 * t + Num(p, q, r, s)] == x[16 * p + Num(q, r, s, t)]
    ensures PermuteQwords(ShuffleBytes(x, MASK2), 0x8d)[16 * t + Num(p, q, r, s)] == x[16 * p + Num(q, r, s, 1 - t)]
  {
    hide Num, PermuteQwords, ShuffleBytes, MASK2;
    QwordsBits(ShuffleBytes(x, MASK2), t, p, q, r, s);
    BytesBits(x, p, t, q, r, s);
    BytesBits(x, p, 1 - t, q, r, s);
  }

  lemma {:induction false} DealtWideBits(x0: Reg, x1: Reg, h: bit, t: bit, p: bit, q: bit, r: bit, s: bit)
    requires |x0| == |x1| == 32
    ensures DealtWide(x0, x1)[h][16 * t + Num(p, q, r, s)] == (if t == 1 then x1 else x0)[16 * p + Num(q, r, s, h)]
  {
    hide Num, PermuteQwords, ShuffleBytes, BlendLanes, MASK2;
    MaskOk();
    var a, b := PermuteQwords(ShuffleBytes(x0, MASK2), 0xd8), PermuteQwords(ShuffleBytes(x1, MASK2), 0x8d);
    var u: bit := if h == 0 then t else 1 - t;
    DealtQwords(x0, u, p, q, r, s);
    DealtQwords(x1, u, p, q, r, s);
    if h == 0 {
      BlendBits(a, b, t, Num(p, q, r, s));
    } else {
      QwordsBits(BlendLanes(b, a), t, p, q, r, s);
      BlendBits(b, a, 1 - t, Num(p, q, r, s));
    }
  }

  method Deal2(mm0: array<Reg>, mm1: array<Reg>)
    requires mm0 != mm1 && File(mm0[..], 2, 32) && File(mm1[..], 2, 32)
    modifies mm0, mm1
    ensures Turned(mm1[..], old(mm0[..]), 2, 32)
  {
    hide Cell, PermuteQwords, ShuffleBytes, BlendLanes, MASK2, DealtWide;
    MaskOk();
    ghost var x := mm0[..];
    DealtWideIs(x[0], x[1]);
    for k := 0 to 2
      invariant mm0[..] == x && File(mm1[..], 2, 32)
      invariant forall i :: 0 <= i < k ==> mm1[i] == ShuffleBytes(x[i], MASK2)
    {
      mm1[k] := ShuffleBytes(mm0[k], MASK2);
    }
    mm0[0] := PermuteQwords(mm1[0], 0xd8);
    mm0[1] := PermuteQwords(mm1[1], 0x8d);
    mm1[0] := BlendLanes(mm0[0], mm0[1]);
    mm0[1] := BlendLanes(mm0[1], mm0[0]);
    mm1[1] := PermuteQwords(mm0[1], 0x4e);
    ghost var z := mm1[..];
    assert z == DealtWide(x[0], x[1]);
    forall b, e | 0 <= b < 2 && 0 <= e < 32 ensures Cell(z, x, 2, 32, b, e) {
      var t, p, q, r, s := ElementBits(e);
      Turned2Bits(z, x, b, t, p, q, r, s);
    }
  }

  lemma {:induction false} DealtWideIs(x0: Reg, x1: Reg)
    requires |x0| == |x1| == 32
    ensures |MASK2| == 16 && forall k :: 0 <= k < 16 ==> MASK2[k] < 16
    ensures var a := PermuteQwords(ShuffleBytes(x0, MASK2), 0xd8);
      var b := PermuteQwords(ShuffleBytes(x1, MASK2), 0x8d);
      DealtWide(x0, x1) == [BlendLanes(a, b), PermuteQwords(BlendLanes(b, a), 0x4e)]
  {
  }

  lemma {:induction false} Turned2Bits(z: seq<Reg>, x: seq<Reg>, h: bit, t: bit, p: bit, q: bit, r: bit, s: bit)
    requires File(x, 2, 32) && z == DealtWide(x[0], x[1])
    ensures Cell(z, x, 2, 32, h, 16 * t + Num(p, q, r, s))
  {
    hide Quot, Rem, Num, DealtWide;
    DealtWideBits(x[0], x[1], h, t, p, q, r, s);
    Wide2(t, p, q, r, s, h);
    NumIs(0, 0, 0, h);
    NumIs(0, 0, 0, t);
  }

  // ----- unshuffle -----

  /** The registers of `y` in the order in which they are stored. */
  function Ordered(y: seq<Reg>, order: seq<nat>): (z: seq<Reg>)
    requires forall k :: 0 <= k < |order| ==> order[k] < |y|
    ensures |z| == |order| && forall k :: 0 <= k < |order| ==> z[k] == y[order[k]]
  {
    seq(|order|, k requires 0 <= k < |order| => y[order[k]])
  }

  const ORDER16: seq<nat> := [0, 8, 4, 12, 2, 10, 6, 14, 1, 9, 5, 13, 3, 11, 7, 15]
  const ORDER8: seq<nat> := [0, 4, 2, 6, 1, 5, 3, 7]
  const ORDER4: seq<nat> := [0, 2, 1, 3]
  const WIDE16: seq<nat> := [0, 4, 2, 6, 1, 5, 3, 7, 8, 12, 10, 14, 9, 13, 11, 15]
  const WIDE8: seq<nat> := [0, 2, 1, 3, 4, 6, 5, 7]

  lemma {:induction false} Orders(a: bit, b: bit, c: bit, d: bit)
    ensures ORDER16[Num(a, b, c, d)] == Num(d, c, b, a) && WIDE16[Num(a, b, c, d)] == Num(a, d, c, b)
  {
  }

  lemma {:induction false} SmallOrders(b: bit, c: bit, d: bit)
    ensures ORDER8[Num(0, b, c, d)] == Num(0, d, c, b) && ORDER4[Num(0, 0, c, d)] == Num(0, 0, d, c)
    ensures WIDE8[Num(0, b, c, d)] == Num(0, b, d, c)
  {
  }

  /** The orders name registers that are there. */
  lemma {:induction false} OrdersOk()
    ensures |ORDER16| == |WIDE16| == 16 && forall k :: 0 <= k < 16 ==> ORDER16[k] < 16 && WIDE16[k] < 16
    ensures |ORDER8| == |WIDE8| == 8 && forall k :: 0 <= k < 8 ==> ORDER8[k] < 8 && WIDE8[k] < 8
    ensures |ORDER4| == 4 && forall k :: 0 <= k < 4 ==> ORDER4[k] < 4
  {
  }

  lemma {:induction false} GatheredFiles(to: seq<Reg>, from: seq<Reg>, n: nat, w: nat, g: nat)
    requires Gathered(to, from, n, w, g)
    ensures File(to, n, w) && File(from, n, w) && Sizes(n, w)
  {
  }

  /** Four stages take the bits of a byte's number out of the place and reverse those of the register. */
  lemma {:induction false} Gather16Bits(x0: seq<Reg>, x1: seq<Reg>, x2: seq<Reg>, x3: seq<Reg>, x4: seq<Reg>, w: nat, t: bit,
      h: bit, a: bit, b: bit, c: bit, p: bit, q: bit, r: bit, s: bit)
    requires Gathered(x1, x0, 16, w, 1) && Gathered(x2, x1, 16, w, 2)
    requires Gathered(x3, x2, 16, w, 4) && Gathered(x4, x3, 16, w, 8) && 16 * t < w
    ensures |x4| == |x0| == 16 && |x4[Num(h, a, b, c)]| == |x0[Num(p, q, r, s)]| == w
    ensures 16 * t + Num(p, q, r, s) < w && 16 * t + Num(c, b, a, h) < w
    ensures x4[Num(h, a, b, c)][16 * t + Num(p, q, r, s)] == x0[Num(p, q, r, s)][16 * t + Num(c, b, a, h)]
  {
    hide Gathered, Num;
    GatheredFiles(x4, x3, 16, w, 8);
    GatheredFiles(x1, x0, 16, w, 1);
    GatheredBits(x4, x3, 16, w, 8, t, h, a, b, c, p, q, r, s);
    GatheredBits(x3, x2, 16, w, 4, t, a, b, c, p, h, q, r, s);
    GatheredBits(x2, x1, 16, w, 2, t, b, c, p, q, a, h, r, s);
    GatheredBits(x1, x0, 16, w, 1, t, c, p, q, r, b, a, h, s);
  }

  lemma {:induction false} Ungather16(x0: seq<Reg>, x1: seq<Reg>, x2: seq<Reg>, x3: seq<Reg>, x4: seq<Reg>, w: nat, t: bit,
      h: bit, a: bit, b: bit, c: bit, p: bit, q: bit, r: bit, s: bit)
    requires Gathered(x1, x0, 16, w, 1) && Gathered(x2, x1, 16, w, 2)
    requires Gathered(x3, x2, 16, w, 4) && Gathered(x4, x3, 16, w, 8) && 16 * t < w
    ensures forall k :: 0 <= k < |ORDER16| ==> ORDER16[k] < |x4|
    ensures LaneCell(x0, Ordered(x4, ORDER16), 16, t, Num(p, q, r, s), Num(c, b, a, h))
  {
    hide Gathered, Num, ORDER16, Quot, Rem;
    OrdersOk();
    Orders(c, b, a, h);
    Gather16Bits(x0, x1, x2, x3, x4, w, t, h, a, b, c, p, q, r, s);
    Place16(t, Num(p, q, r, s), Num(c, b, a, h));
  }

  /** The unpacks of unshuffle16, for one lane or two. */
  method Gather16(mm0: array<Reg>, mm1: array<Reg>, w: nat) returns (ghost x1: seq<Reg>, ghost x2: seq<Reg>, ghost x3: seq<Reg>)
    requires mm0 != mm1 && File(mm0[..], 16, w) && File(mm1[..], 16, w) && Sizes(16, w)
    modifies mm0, mm1
    ensures Gathered(x1, old(mm0[..]), 16, w, 1) && Gathered(x2, x1, 16, w, 2)
    ensures Gathered(x3, x2, 16, w, 4) && Gathered(mm0[..], x3, 16, w, 8)
    ensures File(mm0[..], 16, w) && File(mm1[..], 16, w)
  {
    hide Gathered;
    GatherStage(mm0, mm1, 16, w, 1);
    x1 := mm1[..];
    GatheredFiles(x1, mm0[..], 16, w, 1);
    GatherStage(mm1, mm0, 16, w, 2);
    x2 := mm0[..];
    GatheredFiles(x2, x1, 16, w, 2);
    GatherStage(mm0, mm1, 16, w, 4);
    x3 := mm1[..];
    GatheredFiles(x3, x2, 16, w, 4);
    GatherStage(mm1, mm0, 16, w, 8);
    GatheredFiles(mm0[..], x3, 16, w, 8);
  }

  /** unshuffle16_sse2's network. */
  method Unturn16(mm0: array<Reg>, mm1: array<Reg>)
    requires mm0 != mm1 && File(mm0[..], 16, 16) && File(mm1[..], 16, 16)
    modifies mm0, mm1
    ensures forall k :: 0 <= k < |ORDER16| ==> ORDER16[k] < mm0.Length
    ensures Turned(old(mm0[..]), Ordered(mm0[..], ORDER16), 16, 16)
  {
    hide Gathered, LaneCell, ORDER16;
    OrdersOk();
    ghost var x0 := mm0[..];
    ghost var x1, x2, x3 := Gather16(mm0, mm1, 16);
    ghost var x4 := mm0[..];
    var z := Ordered(x4, ORDER16);
    forall t: bit, b, o | 16 * t < 16 && 0 <= b < 16 && 0 <= o < 16 ensures LaneCell(x0, z, 16, t, b, o) {
      var p, q, r, s := BitsOf(b);
      var c, b1, a, h := BitsOf(o);
      Ungather16(x0, x1, x2, x3, x4, 16, t, h, a, b1, c, p, q, r, s);
    }
    OneLane(x0, z, 16);
  }

  // Eight bytes to an element.

  lemma {:induction false} Gather8Bits(x0: seq<Reg>, x1: seq<Reg>, x2: seq<Reg>, w: nat, t: bit,
      h: bit, b: bit, c: bit, p: bit, q: bit, r: bit, s: bit)
    requires Gathered(x1, x0, 8, w, 1) && Gathered(x2, x1, 8, w, 2) && 16 * t < w
    ensures |x2| == |x0| == 8 && Num(0, h, b, c) < 8 && Num(0, c, r, s) < 8
    ensures |x2[Num(0, h, b, c)]| == |x0[Num(0, c, r, s)]| == w && 16 * t + Num(p, q, r, s) < w && 16 * t + Num(b, h, p, q) < w
    ensures x2[Num(0, h, b, c)][16 * t + Num(p, q, r, s)] == x0[Num(0, c, r, s)][16 * t + Num(b, h, p, q)]
  {
    hide Gathered, Num;
    SmallNum(h, b, c);
    SmallNum(c, r, s);
    GatheredFiles(x2, x1, 8, w, 2);
    GatheredFiles(x1, x0, 8, w, 1);
    GatheredBits(x2, x1, 8, w, 2, t, h, 0, b, c, p, q, r, s);
    GatheredBits(x1, x0, 8, w, 1, t, b, 0, c, r, h, p, q, s);
  }

  lemma {:induction false} Ungather8(x0: seq<Reg>, x1: seq<Reg>, x2: seq<Reg>, x3: seq<Reg>,
      h: bit, b: bit, c: bit, p: bit, q: bit, r: bit, s: bit)
    requires Gathered(x1, x0, 8, 16, 1) && Gathered(x2, x1, 8, 16, 2) && Gathered(x3, x2, 8, 16, 4)
    ensures forall k :: 0 <= k < |ORDER8| ==> ORDER8[k] < |x3|
    ensures LaneCell(x0, Ordered(x3, ORDER8), 8, 0, Num(0, q, r, s), Num(c, b, h, p))
  {
    hide Gathered, Num, ORDER8, Quot, Rem;
    OrdersOk();
    SmallOrders(c, b, h);
    SmallNum(c, b, h);
    SmallNum(h, b, c);
    GatheredFiles(x3, x2, 8, 16, 4);
    GatheredBits(x3, x2, 8, 16, 4, 0, h, 0, b, c, p, q, r, s);
    Gather8Bits(x0, x1, x2, 16, 0, b, c, q, h, p, r, s);
    Place8(q, r, s, c, b, h, p);
  }

  /** unshuffle8_sse2's network; the result is in the second file. */
  method Unturn8(mm0: array<Reg>, mm1: array<Reg>)
    requires mm0 != mm1 && File(mm0[..], 8, 16) && File(mm1[..], 8, 16)
    modifies mm0, mm1
    ensures forall k :: 0 <= k < |ORDER8| ==> ORDER8[k] < mm1.Length
    ensures Turned(old(mm0[..]), Ordered(mm1[..], ORDER8), 8, 16)
  {
    hide Gathered, LaneCell, ORDER8;
    OrdersOk();
    ghost var x0 := mm0[..];
    GatherStage(mm0, mm1, 8, 16, 1);
    ghost var x1 := mm1[..];
    GatheredFiles(x1, x0, 8, 16, 1);
    GatherStage(mm1, mm0, 8, 16, 2);
    ghost var x2 := mm0[..];
    GatheredFiles(x2, x1, 8, 16, 2);
    GatherStage(mm0, mm1, 8, 16, 4);
    ghost var x3 := mm1[..];
    GatheredFiles(x3, x2, 8, 16, 4);
    var z := Ordered(x3, ORDER8);
    forall t: bit, b, o | 16 * t < 16 && 0 <= b < 8 && 0 <= o < 16 ensures LaneCell(x0, z, 8, t, b, o) {
      var q, r, s := SmallBits(b);
      var c, b1, h, p := BitsOf(o);
      Ungather8(x0, x1, x2, x3, h, b1, c, p, q, r, s);
    }
    OneLane(x0, z, 8);
  }

  // Four bytes to an element.

  lemma {:induction false} Gather4Bits(x0: seq<Reg>, x1: seq<Reg>, x2: seq<Reg>, w: nat, t: bit,
      h: bit, c: bit, p: bit, q: bit, r: bit, s: bit)
    requires Gathered(x1, x0, 4, w, 1) && Gathered(x2, x1, 4, w, 2) && 16 * t < w
    ensures |x2| == |x0| == 4 && Num(0, 0, h, c) < 4 && Num(0, 0, r, s) < 4
    ensures |x2[Num(0, 0, h, c)]| == |x0[Num(0, 0, r, s)]| == w && 16 * t + Num(p, q, r, s) < w && 16 * t + Num(c, h, p, q) < w
    ensures x2[Num(0, 0, h, c)][16 * t + Num(p, q, r, s)] == x0[Num(0, 0, r, s)][16 * t + Num(c, h, p, q)]
  {
    hide Gathered, Num;
    SmallNum(0, h, c);
    SmallNum(0, r, s);
    GatheredFiles(x2, x1, 4, w, 2);
    GatheredFiles(x1, x0, 4, w, 1);
    GatheredBits(x2, x1, 4, w, 2, t, h, 0, 0, c, p, q, r, s);
    GatheredBits(x1, x0, 4, w, 1, t, c, 0, 0, r, h, p, q, s);
  }

  lemma {:induction false} Ungather4(x0: seq<Reg>, x1: seq<Reg>, x2: seq<Reg>, h: bit, c: bit, p: bit, q: bit, r: bit, s: bit)
    requires Gathered(x1, x0, 4, 16, 1) && Gathered(x2, x1, 4, 16, 2)
    ensures forall k :: 0 <= k < |ORDER4| ==> ORDER4[k] < |x2|
    ensures LaneCell(x0, Ordered(x2, ORDER4), 4, 0, Num(0, 0, r, s), Num(c, h, p, q))
  {
    hide Gathered, Num, ORDER4, Quot, Rem;
    OrdersOk();
    SmallOrders(0, c, h);
    SmallNum(0, c, h);
    Gather4Bits(x0, x1, x2, 16, 0, h, c, p, q, r, s);
    Place4(r, s, c, h, p, q);
  }

  /** unshuffle4_sse2's network. */
  method Unturn4(mm0: array<Reg>, mm1: array<Reg>)
    requires mm0 != mm1 && File(mm0[..], 4, 16) && File(mm1[..], 4, 16)
    modifies mm0, mm1
    ensures forall k :: 0 <= k < |ORDER4| ==> ORDER4[k] < mm0.Length
    ensures Turned(old(mm0[..]), Ordered(mm0[..], ORDER4), 4, 16)
  {
    hide Gathered, LaneCell, ORDER4;
    OrdersOk();
    ghost var x0 := mm0[..];
    GatherStage(mm0, mm1, 4, 16, 1);
    ghost var x1 := mm1[..];
    GatheredFiles(x1, x0, 4, 16, 1);
    GatherStage(mm1, mm0, 4, 16, 2);
    ghost var x2 := mm0[..];
    GatheredFiles(x2, x1, 4, 16, 2);
    var z := Ordered(x2, ORDER4);
    forall t: bit, b, o | 16 * t < 16 && 0 <= b < 4 && 0 <= o < 16 ensures LaneCell(x0, z, 4, t, b, o) {
      var b2, r, s := SmallBits(b);
      var c, h, p, q := BitsOf(o);
      Ungather4(x0, x1, x2, h, c, p, q, r, s);
    }
    OneLane(x0, z, 4);
  }

  // Two bytes to an element.

  lemma {:induction false} Ungather2(x0: seq<Reg>, x1: seq<Reg>, h: bit, p: bit, q: bit, r: bit, s: bit)
    requires Gathered(x1, x0, 2, 16, 1)
    ensures LaneCell(x0, x1, 2, 0, Num(0, 0, 0, s), Num(h, p, q, r))
  {
    hide Gathered, Num, Quot, Rem;
    SmallNum(0, 0, h);
    SmallNum(0, 0, s);
    GatheredFiles(x1, x0, 2, 16, 1);
    GatheredBits(x1, x0, 2, 16, 1, 0, h, 0, 0, 0, p, q, r, s);
    Place2(s, h, p, q, r);
  }

  /** unshuffle2_sse2's network; the result is in the second file. */
  method Unturn2(mm0: array<Reg>, mm1: array<Reg>)
    requires mm0 != mm1 && File(mm0[..], 2, 16) && File(mm1[..], 2, 16)
    modifies mm1
    ensures Turned(mm0[..], mm1[..], 2, 16)
  {
    hide Gathered, LaneCell;
    ghost var x0 := mm0[..];
    GatherStage(mm0, mm1, 2, 16, 1);
    ghost var x1 := mm1[..];
    GatheredFiles(x1, x0, 2, 16, 1);
    forall t: bit, b, o | 16 * t < 16 && 0 <= b < 2 && 0 <= o < 16 ensures LaneCell(x0, x1, 2, t, b, o) {
      var b2, b1, s := SmallBits(b);
      var h, p, q, r := BitsOf(o);
      Ungather2(x0, x1, h, p, q, r, s);
    }
    OneLane(x0, x1, 2);
  }

  // ----- unshuffle with two lanes -----

  ghost predicate Joined(z: seq<Reg>, y: seq<Reg>, n: nat) {
    && File(z, n, 32) && File(y, n, 32) && Sizes(n, 32)
    && forall j :: 0 <= j < n / 2 ==> z[j] == JoinLanes(y[j], y[n / 2 + j], 0) && z[n / 2 + j] == JoinLanes(y[j], y[n / 2 + j], 1)
  }

  /** The permute2x128 loops: register j and the one half a file on, lane by lane. */
  method JoinStage(from: array<Reg>, to: array<Reg>, n: nat)
    requires from != to && File(from[..], n, 32) && File(to[..], n, 32) && Sizes(n, 32)
    modifies to
    ensures Joined(to[..], from[..], n)
  {
    hide JoinLanes;
    for j := 0 to n / 2
      invariant File(to[..], n, 32)
      invariant forall i :: 0 <= i < j ==> to[i] == JoinLanes(from[i], from[n / 2 + i], 0)
      invariant forall i :: 0 <= i < j ==> to[n / 2 + i] == JoinLanes(from[i], from[n / 2 + i], 1)
    {
      to[j] := JoinLanes(from[j], from[n / 2 + j], 0);
      to[n / 2 + j] := JoinLanes(from[j], from[n / 2 + j], 1);
    }
  }

  lemma {:induction false} JoinedBits(z: seq<Reg>, y: seq<Reg>, n: nat, half: bit, b: bit, c: bit, d: bit, t: bit, o: nat)
    requires Joined(z, y, n) && o < 16 && (n <= 8 ==> b == 0) && (n <= 4 ==> c == 0) && (n <= 2 ==> d == 0)
    ensures Halved(n, half, b, c, d) < n && Halved(n, t, b, c, d) < n
    ensures z[Halved(n, half, b, c, d)][16 * t + o] == y[Halved(n, t, b, c, d)][16 * half + o]
  {
    hide JoinLanes, Halved;
    var j := 4 * b + 2 * c + d;
    HalvedIs(n, half, b, c, d);
    HalvedIs(n, t, b, c, d);
    JoinBits(y[j], y[n / 2 + j], half, t, o);
  }

  lemma {:induction false} HalvedIs(n: nat, h: bit, b: bit, c: bit, d: bit)
    requires n == 2 || n == 4 || n == 8 || n == 16
    requires (n <= 8 ==> b == 0) && (n <= 4 ==> c == 0) && (n <= 2 ==> d == 0)
    ensures 4 * b + 2 * c + d < n / 2
    ensures Halved(n, h, b, c, d) == (if h == 1 then n / 2 else 0) + (4 * b + 2 * c + d)
  {
  }

  lemma {:induction false} UngatherWide16(x0: seq<Reg>, x1: seq<Reg>, x2: seq<Reg>, x3: seq<Reg>, x4: seq<Reg>, z: seq<Reg>,
      half: bit, a: bit, b: bit, c: bit, t: bit, p: bit, q: bit, r: bit, s: bit)
    requires Gathered(x1, x0, 16, 32, 1) && Gathered(x2, x1, 16, 32, 2)
    requires Gathered(x3, x2, 16, 32, 4) && Gathered(x4, x3, 16, 32, 8) && Joined(z, x4, 16)
    ensures forall k :: 0 <= k < |WIDE16| ==> WIDE16[k] < |z|
    ensures Cell(x0, Ordered(z, WIDE16), 16, 32, Num(p, q, r, s), 16 * half + Num(c, b, a, t))
  {
    hide Gathered, Num, WIDE16, Quot, Rem;
    OrdersOk();
    Orders(half, c, b, a);
    JoinedBits(z, x4, 16, half, a, b, c, t, Num(p, q, r, s));
    Gather16Bits(x0, x1, x2, x3, x4, 32, half, t, a, b, c, p, q, r, s);
    Wide16(half, c, b, a, t, Num(p, q, r, s));
  }

  /** unshuffle16_avx2's network; the result is in the second file. */
  method UnturnWide16(mm0: array<Reg>, mm1: array<Reg>)
    requires mm0 != mm1 && File(mm0[..], 16, 32) && File(mm1[..], 16, 32)
    modifies mm0, mm1
    ensures forall k :: 0 <= k < |WIDE16| ==> WIDE16[k] < mm1.Length
    ensures Turned(old(mm0[..]), Ordered(mm1[..], WIDE16), 16, 32)
  {
    hide Gathered, Cell, WIDE16, Joined;
    OrdersOk();
    ghost var x0 := mm0[..];
    ghost var x1, x2, x3 := Gather16(mm0, mm1, 32);
    ghost var x4 := mm0[..];
    JoinStage(mm0, mm1, 16);
    ghost var z := mm1[..];
    JoinedFiles(z, x4, 16);
    forall b, e | 0 <= b < 16 && 0 <= e < 32 ensures Cell(x0, Ordered(z, WIDE16), 16, 32, b, e) {
      var p, q, r, s := BitsOf(b);
      var half, c, b1, a, t := ElementBits(e);
      UngatherWide16(x0, x1, x2, x3, x4, z, half, a, b1, c, t, p, q, r, s);
    }
  }

  lemma {:induction false} JoinedFiles(z: seq<Reg>, y: seq<Reg>, n: nat)
    requires Joined(z, y, n)
    ensures File(z, n, 32) && File(y, n, 32)
  {
  }

  ghost predicate Exchanged(z: seq<Reg>, y: seq<Reg>, n: nat) {
    File(z, n, 32) && File(y, n, 32) && forall k :: 0 <= k < n ==> z[k] == PermuteQwords(y[k], 0xd8)
  }

  method Exchange(mm: array<Reg>, n: nat)
    requires File(mm[..], n, 32)
    modifies mm
    ensures Exchanged(mm[..], old(mm[..]), n)
  {
    hide PermuteQwords;
    for j := 0 to n
      invariant File(mm[..], n, 32)
      invariant forall i :: 0 <= i < j ==> mm[i] == PermuteQwords(old(mm[i]), 0xd8)
      invariant forall i :: j <= i < n ==> mm[i] == old(mm[i])
    {
      mm[j] := PermuteQwords(mm[j], 0xd8);
    }
  }

  lemma {:induction false} Gather8Wide(x0: seq<Reg>, x1: seq<Reg>, x2: seq<Reg>, x2': seq<Reg>, x3: seq<Reg>,
      h: bit, b: bit, c: bit, t: bit, p: bit, q: bit, r: bit, s: bit)
    requires Gathered(x1, x0, 8, 32, 1) && Gathered(x2, x1, 8, 32, 2) && Exchanged(x2', x2, 8) && Gathered(x3, x2', 8, 32, 4)
    ensures |x3| == |x0| == 8 && Num(0, h, b, c) < 8 && Num(0, q, r, s) < 8
    ensures |x3[Num(0, h, b, c)]| == |x0[Num(0, q, r, s)]| == 32
    ensures x3[Num(0, h, b, c)][16 * t + Num(p, q, r, s)] == x0[Num(0, q, r, s)][16 * h + Num(c, b, t, p)]
  {
    hide Gathered, Num, PermuteQwords;
    SmallNum(h, b, c);
    SmallNum(b, c, q);
    GatheredFiles(x3, x2', 8, 32, 4);
    GatheredBits(x3, x2', 8, 32, 4, t, h, 0, b, c, p, q, r, s);
    QwordsBits(x2[Num(0, b, c, q)], t, h, p, r, s);
    Gather8Bits(x0, x1, x2, 32, h, b, c, q, t, p, r, s);
  }

  lemma {:induction false} UngatherWide8(x0: seq<Reg>, x1: seq<Reg>, x2: seq<Reg>, x2': seq<Reg>, x3: seq<Reg>,
      h: bit, b: bit, c: bit, t: bit, p: bit, q: bit, r: bit, s: bit)
    requires Gathered(x1, x0, 8, 32, 1) && Gathered(x2, x1, 8, 32, 2) && Exchanged(x2', x2, 8) && Gathered(x3, x2', 8, 32, 4)
    ensures forall k :: 0 <= k < |WIDE8| ==> WIDE8[k] < |x3|
    ensures Cell(x0, Ordered(x3, WIDE8), 8, 32, Num(0, q, r, s), 16 * h + Num(c, b, t, p))
  {
    hide Gathered, Exchanged, Num, WIDE8, Quot, Rem;
    OrdersOk();
    SmallOrders(h, c, b);
    SmallNum(h, c, b);
    Gather8Wide(x0, x1, x2, x2', x3, h, b, c, t, p, q, r, s);
    Wide8(h, c, b, t, p, q, r, s);
  }

  /** unshuffle8_avx2's network; the result is in the second file. */
  method UnturnWide8(mm0: array<Reg>, mm1: array<Reg>)
    requires mm0 != mm1 && File(mm0[..], 8, 32) && File(mm1[..], 8, 32)
    modifies mm0, mm1
    ensures forall k :: 0 <= k < |WIDE8| ==> WIDE8[k] < mm1.Length
    ensures Turned(old(mm0[..]), Ordered(mm1[..], WIDE8), 8, 32)
  {
    hide Gathered, Cell, WIDE8, Exchanged;
    OrdersOk();
    ghost var x0 := mm0[..];
    GatherStage(mm0, mm1, 8, 32, 1);
    ghost var x1 := mm1[..];
    GatheredFiles(x1, x0, 8, 32, 1);
    GatherStage(mm1, mm0, 8, 32, 2);
    ghost var x2 := mm0[..];
    GatheredFiles(x2, x1, 8, 32, 2);
    Exchange(mm0, 8);
    ghost var x2' := mm0[..];
    ExchangedFiles(x2', x2, 8);
    GatherStage(mm0, mm1, 8, 32, 4);
    ghost var x3 := mm1[..];
    GatheredFiles(x3, x2', 8, 32, 4);
    forall b, e | 0 <= b < 8 && 0 <= e < 32 ensures Cell(x0, Ordered(x3, WIDE8), 8, 32, b, e) {
      var q, r, s := SmallBits(b);
      var h, c, b1, t, p := ElementBits(e);
      UngatherWide8(x0, x1, x2, x2', x3, h, b1, c, t, p, q, r, s);
    }
  }

  lemma {:induction false} ExchangedFiles(z: seq<Reg>, y: seq<Reg>, n: nat)
    requires Exchanged(z, y, n)
    ensures File(z, n, 32)
  {
  }

  lemma {:induction false} UngatherWide4(x0: seq<Reg>, x1: seq<Reg>, x2: seq<Reg>, z: seq<Reg>,
      half: bit, c: bit, t: bit, p: bit, q: bit, r: bit, s: bit)
    requires Gathered(x1, x0, 4, 32, 1) && Gathered(x2, x1, 4, 32, 2) && Joined(z, x2, 4)
    ensures Cell(x0, z, 4, 32, Num(0, 0, r, s), 16 * half + Num(c, t, p, q))
  {
    hide Gathered, Num, Quot, Rem;
    SmallNum(0, half, c);
    SmallNum(0, t, c);
    JoinedBits(z, x2, 4, half, 0, 0, c, t, Num(p, q, r, s));
    Gather4Bits(x0, x1, x2, 32, half, t, c, p, q, r, s);
    Wide4(half, c, t, p, q, r, s);
  }

  /** unshuffle4_avx2's network; the result is in the second file. */
  method UnturnWide4(mm0: array<Reg>, mm1: array<Reg>)
    requires mm0 != mm1 && File(mm0[..], 4, 32) && File(mm1[..], 4, 32)
    modifies mm0, mm1
    ensures Turned(old(mm0[..]), mm1[..], 4, 32)
  {
    hide Gathered, Cell, Joined;
    ghost var x0 := mm0[..];
    GatherStage(mm0, mm1, 4, 32, 1);
    ghost var x1 := mm1[..];
    GatheredFiles(x1, x0, 4, 32, 1);
    GatherStage(mm1, mm0, 4, 32, 2);
    ghost var x2 := mm0[..];
    GatheredFiles(x2, x1, 4, 32, 2);
    JoinStage(mm0, mm1, 4);
    ghost var z := mm1[..];
    JoinedFiles(z, x2, 4);
    forall b, e | 0 <= b < 4 && 0 <= e < 32 ensures Cell(x0, z, 4, 32, b, e) {
      var b2, r, s := SmallBits(b);
      var half, c, t, p, q := ElementBits(e);
      UngatherWide4(x0, x1, x2, z, half, c, t, p, q, r, s);
    }
  }

  lemma {:induction false} UngatherWide2(x0: seq<Reg>, y: seq<Reg>, z: seq<Reg>, h: bit, t: bit, p: bit, q: bit, r: bit, s: bit)
    requires Exchanged(y, x0, 2) && Gathered(z, y, 2, 32, 1)
    ensures Cell(x0, z, 2, 32, Num(0, 0, 0, s), 16 * h + Num(t, p, q, r))
  {
    hide Gathered, Num, Quot, Rem, PermuteQwords;
    SmallNum(0, 0, h);
    SmallNum(0, 0, s);
    GatheredFiles(z, y, 2, 32, 1);
    GatheredBits(z, y, 2, 32, 1, t, h, 0, 0, 0, p, q, r, s);
    QwordsBits(x0[Num(0, 0, 0, s)], t, h, p, q, r);
    Wide2(h, t, p, q, r, s);
  }

  /** unshuffle2_avx2's network; the result is in the second file. */
  method UnturnWide2(mm0: array<Reg>, mm1: array<Reg>)
    requires mm0 != mm1 && File(mm0[..], 2, 32) && File(mm1[..], 2, 32)
    modifies mm0, mm1
    ensures Turned(old(mm0[..]), mm1[..], 2, 32)
  {
    hide Gathered, Cell, Exchanged;
    ghost var x0 := mm0[..];
    Exchange(mm0, 2);
    ghost var y := mm0[..];
    ExchangedFiles(y, x0, 2);
    GatherStage(mm0, mm1, 2, 32, 1);
    ghost var z := mm1[..];
    GatheredFiles(z, y, 2, 32, 1);
    forall b, e | 0 <= b < 2 && 0 <= e < 32 ensures Cell(x0, z, 2, 32, b, e) {
      var b2, b1, s := SmallBits(b);
      var h, t, p, q, r := ElementBits(e);
      UngatherWide2(x0, y, z, h, t, p, q, r, s);
    }
  }
}
