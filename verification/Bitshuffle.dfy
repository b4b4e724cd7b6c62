// The scalar bitshuffle pipeline of blosc/bitshuffle-generic.c: bytes of elements, bits of bytes and
// rows of bits are transposed in turn; its inverse; and the filter entry of blosc/shuffle.c.

module Bitshuffle {
  import opened Bytes
  import opened Words
  import opened Stores
  import opened Grids
  import opened BitMatrix

  // ----- bytes within elements -----

  /** The rows from `lo` up to `hi`, in columns before `cols`, have been transposed. */
  ghost predicate RowsOk(out: seq<byte>, input: seq<byte>, h: nat, w: nat, lo: nat, hi: nat, cols: nat) {
    forall r: nat, c: nat :: lo <= r < hi && c < cols ==> CellOk(out, input, h, w, r, c)
  }

  /** Eight rows in one column: the innermost loop. */
  method EightCells(src: seq<byte>, dst: array<byte>, size: nat, elemSize: nat, ii: nat, jj: nat)
    requires ii + 8 <= size && jj < elemSize && Area(size, elemSize) <= |src| && Area(size, elemSize) <= dst.Length
    requires RowsOk(dst[..], src, size, elemSize, 0, ii, elemSize) && RowsOk(dst[..], src, size, elemSize, ii, ii + 8, jj)
    modifies dst
    ensures RowsOk(dst[..], src, size, elemSize, 0, ii, elemSize) && RowsOk(dst[..], src, size, elemSize, ii, ii + 8, jj + 1)
    ensures SameFrom(dst[..], old(dst[..]), Area(size, elemSize))
  {
    hide CellOk, Area;
    var kk := 0;
    while kk < 8
      invariant kk <= 8 && RowsOk(dst[..], src, size, elemSize, 0, ii, elemSize) && RowsOk(dst[..], src, size, elemSize, ii, ii + 8, jj)
      invariant forall r: nat :: ii <= r < ii + kk ==> CellOk(dst[..], src, size, elemSize, r, jj)
      invariant SameFrom(dst[..], old(dst[..]), Area(size, elemSize))
    {
      SetCell(src, dst, size, elemSize, ii + kk, jj);
      kk := kk + 1;
    }
  }

  /** blosc_internal_bshuf_trans_byte_elem_remainder: the rows before `start` are there already. */
  method TransByteElemRemainder(src: seq<byte>, dst: array<byte>, size: nat, elemSize: nat, start: nat) returns (count: int)
    requires Area(size, elemSize) <= |src| && Area(size, elemSize) <= dst.Length && start <= size
    requires RowsOk(dst[..], src, size, elemSize, 0, start, elemSize)
    modifies dst
    ensures count == if start % 8 == 0 then Area(size, elemSize) else -80
    ensures count >= 0 ==> Transposed(dst[..], src, size, elemSize)
    ensures SameFrom(dst[..], old(dst[..]), Area(size, elemSize))
  {
    hide CellOk, Area;
    if start % 8 != 0 {
      return -80;
    }
    var ii := start;
    while ii + 7 < size
      invariant start <= ii <= size && ii % 8 == 0 && RowsOk(dst[..], src, size, elemSize, 0, ii, elemSize)
      invariant SameFrom(dst[..], old(dst[..]), Area(size, elemSize))
    {
      var jj := 0;
      while jj < elemSize
        invariant jj <= elemSize
        invariant RowsOk(dst[..], src, size, elemSize, 0, ii, elemSize) && RowsOk(dst[..], src, size, elemSize, ii, ii + 8, jj)
        invariant SameFrom(dst[..], old(dst[..]), Area(size, elemSize))
      {
        EightCells(src, dst, size, elemSize, ii, jj);
        jj := jj + 1;
      }
      ii := ii + 8;
    }
    assert ii == size - size % 8;
    while ii < size
      invariant start <= ii <= size && RowsOk(dst[..], src, size, elemSize, 0, ii, elemSize)
      invariant SameFrom(dst[..], old(dst[..]), Area(size, elemSize))
    {
      var jj := 0;
      while jj < elemSize
        invariant jj <= elemSize
        invariant RowsOk(dst[..], src, size, elemSize, 0, ii, elemSize) && RowsOk(dst[..], src, size, elemSize, ii, ii + 1, jj)
        invariant SameFrom(dst[..], old(dst[..]), Area(size, elemSize))
      {
        SetCell(src, dst, size, elemSize, ii, jj);
        jj := jj + 1;
      }
      ii := ii + 1;
    }
    CellsTransposed(dst[..], src, size, elemSize);
    count := Area(size, elemSize);
  }

  // ----- bits within bytes -----

  /** Plane `k`, place `i` gathers digit `k` of the eight bytes of group `i`. */
  ghost predicate PlaneOk(out: seq<byte>, input: seq<byte>, rows: nat, k: nat, i: nat) {
    8 * i + 8 <= |input| && Ix(k, i, rows) < |out| && out[Ix(k, i, rows)] == Gather(input[8 * i..8 * i + 8], k)
  }

  /** All eight planes of the groups before `hi` are there. */
  ghost predicate PlanesOk(out: seq<byte>, input: seq<byte>, rows: nat, lo: nat, hi: nat) {
    forall k: nat, i: nat :: k < 8 && lo <= i < hi ==> PlaneOk(out, input, rows, k, i)
  }

  /** Planes that were right are right. */
  ghost predicate PlanesKept(now: seq<byte>, was: seq<byte>, input: seq<byte>, rows: nat) {
    forall k: nat, i: nat :: k < 8 && i < rows && PlaneOk(was, input, rows, k, i) ==> PlaneOk(now, input, rows, k, i)
  }

  /** One store; planes already right stay right. */
  method SetPlane(ghost src: seq<byte>, dst: array<byte>, ghost rows: nat, ghost k: nat, ghost i: nat, at: nat, v: byte)
    requires k < 8 && i < rows && 8 * rows <= |src| && Area(8, rows) <= dst.Length && v == Gather(src[8 * i..8 * i + 8], k)
    requires at == Ix(k, i, rows)
    modifies dst
    ensures PlaneOk(dst[..], src, rows, k, i)
    ensures PlanesKept(dst[..], old(dst[..]), src, rows)
    ensures SameFrom(dst[..], old(dst[..]), Area(8, rows))
  {
    hide Ix, Area, Gather;
    IxBound(k, i, 8, rows);
    IxUnique(k, i, rows);
    dst[at] := v;
  }

  method StoreGroup(src: seq<byte>, dst: array<byte>, rows: nat, ii: nat)
    requires ii < rows && 8 * rows <= |src| && Area(8, rows) <= dst.Length && PlanesOk(dst[..], src, rows, 0, ii)
    modifies dst
    ensures PlanesOk(dst[..], src, rows, 0, ii + 1)
    ensures SameFrom(dst[..], old(dst[..]), Area(8, rows))
  {
    hide Area, Gather, StoredByte, TransBit8x8, Word, Shifted, ShiftByte, PlaneOk;
    var group := src[8 * ii..8 * ii + 8];
    var x := TransBit8x8(Word(group));
    ghost var word := x;
    ShiftedNext(word, 0);
    var kk := 0;
    while kk < 8
      invariant kk <= 8 && PlanesOk(dst[..], src, rows, 0, ii)
      invariant kk < 8 ==> x == Shifted(word, kk)
      invariant forall k: nat :: k < kk ==> PlaneOk(dst[..], src, rows, k, ii)
      invariant SameFrom(dst[..], old(dst[..]), Area(8, rows))
    {
      StoresDigits(group, kk);
      SetPlane(src, dst, rows, kk, ii, Ix(kk, ii, rows), StoredByte(x));
      if kk < 7 {
        ShiftedNext(word, kk);
      }
      x := ShiftByte(x);
      kk := kk + 1;
    }
  }

  /** blosc_internal_bshuf_trans_bit_byte_remainder on a little-endian machine; the groups before
      `startByte` / 8 are there already. */
  method TransBitByteRemainder(src: seq<byte>, dst: array<byte>, nbyte: nat, startByte: nat) returns (count: int)
    requires nbyte <= |src| && Area(8, nbyte / 8) <= dst.Length && startByte <= nbyte
    requires PlanesOk(dst[..], src, nbyte / 8, 0, startByte / 8)
    modifies dst
    ensures count == if nbyte % 8 == 0 && startByte % 8 == 0 then nbyte else -80
    ensures count >= 0 ==> PlanesOk(dst[..], src, nbyte / 8, 0, nbyte / 8)
    ensures SameFrom(dst[..], old(dst[..]), Area(8, nbyte / 8))
  {
    hide Area, PlanesOk;
    if nbyte % 8 != 0 || startByte % 8 != 0 {
      return -80;
    }
    var ii := startByte / 8;
    while ii < nbyte / 8
      invariant ii <= nbyte / 8 && PlanesOk(dst[..], src, nbyte / 8, 0, ii)
      invariant SameFrom(dst[..], old(dst[..]), Area(8, nbyte / 8))
    {
      StoreGroup(src, dst, nbyte / 8, ii);
      ii := ii + 1;
    }
    count := nbyte;
  }

  // ----- rows of bits -----

  /** Block `ii`, `jj` of `len` bytes has been moved across the diagonal. */
  ghost predicate BlockOk(out: seq<byte>, input: seq<byte>, lda: nat, ldb: nat, len: nat, ii: nat, jj: nat) {
    forall t: nat :: t < len ==>
      Ix(Ix(ii, jj, ldb), t, len) < |input| && Ix(Ix(jj, ii, lda), t, len) < |out|
      && out[Ix(Ix(jj, ii, lda), t, len)] == input[Ix(Ix(ii, jj, ldb), t, len)]
  }

  lemma {:induction false} IxRow(b: nat, t: nat, len: nat)
    ensures Ix(b, t, len) == Ix(b, 0, len) + t
  {
  }

  /** Blocks lie inside the whole and apart from one another. */
  lemma {:induction false} BlockBounds(r: nat, c: nat, h: nat, w: nat, len: nat)
    requires r < h && c < w
    ensures Ix(Ix(r, c, w), 0, len) + len <= Area(Area(h, w), len)
    ensures forall t: nat :: t < len ==> Ix(Ix(r, c, w), t, len) < Area(Area(h, w), len)
  {
    IxBound(r, c, h, w);
    RowsBelow(Ix(r, c, w), Area(h, w), len);
    forall t: nat | t < len
      ensures Ix(Ix(r, c, w), t, len) < Area(Area(h, w), len)
    {
      IxBound(Ix(r, c, w), t, Area(h, w), len);
    }
  }

  lemma {:induction false} BlocksApart(b0: nat, len: nat)
    ensures forall b: nat, t: nat :: t < len && b != b0 ==> Ix(b, t, len) < Ix(b0, 0, len) || Ix(b0, 0, len) + len <= Ix(b, t, len)
  {
    forall b: nat, t: nat | t < len && b != b0
      ensures Ix(b, t, len) < Ix(b0, 0, len) || Ix(b0, 0, len) + len <= Ix(b, t, len)
    {
      if b < b0 {
        RowsBelow(b, b0, len);
      } else {
        RowsBelow(b0, b, len);
      }
    }
  }

  /** The memcpy of one block. */
  method SetBlock(src: seq<byte>, dst: array<byte>, lda: nat, ldb: nat, len: nat, ii: nat, jj: nat)
    requires ii < lda && jj < ldb && Area(Area(lda, ldb), len) <= |src| && Area(Area(ldb, lda), len) <= dst.Length
    modifies dst
    ensures BlockOk(dst[..], src, lda, ldb, len, ii, jj)
    ensures forall i: nat, j: nat :: i < lda && j < ldb && BlockOk(old(dst[..]), src, lda, ldb, len, i, j) ==> BlockOk(dst[..], src, lda, ldb, len, i, j)
    ensures SameFrom(dst[..], old(dst[..]), Area(Area(ldb, lda), len))
  {
    hide Ix, Area, BlockOk;
    ghost var was := dst[..];
    BlockBounds(ii, jj, lda, ldb, len);
    BlockBounds(jj, ii, ldb, lda, len);
    var d, s := Ix(Ix(jj, ii, lda), 0, len), Ix(Ix(ii, jj, ldb), 0, len);
    forall i | d <= i < d + len {
      dst[i] := src[i - d + s];
    }
    BlockSet(dst[..], src, lda, ldb, len, ii, jj);
    forall i: nat, j: nat | i < lda && j < ldb && BlockOk(was, src, lda, ldb, len, i, j)
      ensures BlockOk(dst[..], src, lda, ldb, len, i, j)
    {
      BlockKept(dst[..], was, src, lda, ldb, len, ii, jj, i, j);
    }
  }

  lemma {:induction false} BlockSet(now: seq<byte>, src: seq<byte>, lda: nat, ldb: nat, len: nat, ii: nat, jj: nat)
    requires Ix(Ix(ii, jj, ldb), 0, len) + len <= |src| && Ix(Ix(jj, ii, lda), 0, len) + len <= |now|
    requires var d := Ix(Ix(jj, ii, lda), 0, len); forall i :: d <= i < d + len ==> now[i] == src[i - d + Ix(Ix(ii, jj, ldb), 0, len)]
    ensures BlockOk(now, src, lda, ldb, len, ii, jj)
  {
    hide Ix;
    forall t: nat | t < len
      ensures Ix(Ix(ii, jj, ldb), t, len) < |src| && Ix(Ix(jj, ii, lda), t, len) < |now|
      ensures now[Ix(Ix(jj, ii, lda), t, len)] == src[Ix(Ix(ii, jj, ldb), t, len)]
    {
      IxRow(Ix(ii, jj, ldb), t, len);
      IxRow(Ix(jj, ii, lda), t, len);
    }
  }

  lemma {:induction false} BlockKept(now: seq<byte>, was: seq<byte>, src: seq<byte>, lda: nat, ldb: nat, len: nat, ii: nat, jj: nat, i: nat, j: nat)
    requires ii < lda && jj < ldb && i < lda && j < ldb && |now| == |was|
    requires BlockOk(now, src, lda, ldb, len, ii, jj) && BlockOk(was, src, lda, ldb, len, i, j)
    requires var d := Ix(Ix(jj, ii, lda), 0, len); forall k :: 0 <= k < |now| && !(d <= k < d + len) ==> now[k] == was[k]
    ensures BlockOk(now, src, lda, ldb, len, i, j)
  {
    hide Ix;
    IxUnique(jj, ii, lda);
    BlocksApart(Ix(jj, ii, lda), len);
  }

  /** blosc_internal_bshuf_trans_elem. */
  method TransElem(src: seq<byte>, dst: array<byte>, lda: nat, ldb: nat, len: nat)
    requires Area(Area(lda, ldb), len) <= |src| && Area(Area(ldb, lda), len) <= dst.Length
    modifies dst
    ensures forall i: nat, j: nat :: i < lda && j < ldb ==> BlockOk(dst[..], src, lda, ldb, len, i, j)
    ensures SameFrom(dst[..], old(dst[..]), Area(Area(ldb, lda), len))
  {
    hide Area, BlockOk;
    var ii := 0;
    while ii < lda
      invariant ii <= lda && forall i: nat, j: nat :: i < ii && j < ldb ==> BlockOk(dst[..], src, lda, ldb, len, i, j)
      invariant SameFrom(dst[..], old(dst[..]), Area(Area(ldb, lda), len))
    {
      var jj := 0;
      while jj < ldb
        invariant jj <= ldb && forall i: nat, j: nat :: i < ii && j < ldb ==> BlockOk(dst[..], src, lda, ldb, len, i, j)
        invariant forall j: nat :: j < jj ==> BlockOk(dst[..], src, lda, ldb, len, ii, j)
        invariant SameFrom(dst[..], old(dst[..]), Area(Area(ldb, lda), len))
      {
        SetBlock(src, dst, lda, ldb, len, ii, jj);
        jj := jj + 1;
      }
      ii := ii + 1;
    }
  }

  // ----- the pipeline -----

  /** Byte `j` of the eight elements of group `g`. */
  function Eight(s: seq<byte>, g: nat, j: nat, elemSize: nat): (e: seq<byte>)
    ensures |e| == 8
  {
    seq(8, r requires 0 <= r < 8 => if Ix(8 * g + r, j, elemSize) < |s| then s[Ix(8 * g + r, j, elemSize)] else 0)
  }

  /** Row 8 j + b of the output holds, for every group of eight elements, bit `b` of byte `j` of each: element
      8 g + r supplies bit `r` of the byte at place `g`. */
  ghost predicate BitCell(out: seq<byte>, input: seq<byte>, groups: nat, elemSize: nat, g: nat, j: nat, b: nat) {
    Ix(Ix(j, b, 8), g, groups) < |out| && out[Ix(Ix(j, b, 8), g, groups)] == Gather(Eight(input, g, j, elemSize), b)
  }

  ghost predicate BitShuffled(out: seq<byte>, input: seq<byte>, groups: nat, elemSize: nat) {
    && Area(8 * groups, elemSize) <= |input|
    && forall g: nat, j: nat, b: nat :: g < groups && j < elemSize && b < 8 ==> BitCell(out, input, groups, elemSize, g, j, b)
  }

  /** Indices of the three stages agree. */
  lemma {:induction false} StageIndices(groups: nat, elemSize: nat, g: nat, j: nat, b: nat, r: nat)
    ensures Ix(Ix(b, j, elemSize), g, groups) == Ix(b, Ix(j, g, groups), Area(elemSize, groups))
    ensures 8 * Ix(j, g, groups) + r == Ix(j, 8 * g + r, 8 * groups)
    ensures Area(8 * groups, elemSize) == 8 * Area(elemSize, groups)
  {
    Distributes(b * elemSize, j, groups);
    Associates(b, elemSize, groups);
    Associates(8, groups, elemSize);
    Associates(8, groups, j);
  }

  lemma {:induction false} Associates(a: nat, b: nat, c: nat)
    ensures a * b * c == a * (b * c) == a * (c * b)
  {
  }

  /** The three stages together shuffle the bits. */
  lemma {:induction false} StagesShuffle(input: seq<byte>, a: seq<byte>, b: seq<byte>, c: seq<byte>, groups: nat, elemSize: nat)
    requires Transposed(a, input, 8 * groups, elemSize)
    requires PlanesOk(b, a, Area(elemSize, groups), 0, Area(elemSize, groups))
    requires forall i: nat, j: nat :: i < 8 && j < elemSize ==> BlockOk(c, b, 8, elemSize, groups, i, j)
    ensures BitShuffled(c, input, groups, elemSize)
  {
    hide Ix, Area, Gather;
    forall g: nat, j: nat, k: nat | g < groups && j < elemSize && k < 8
      ensures BitCell(c, input, groups, elemSize, g, j, k)
    {
      var i := Ix(j, g, groups);
      IxBound(j, g, elemSize, groups);
      StageIndices(groups, elemSize, g, j, k, 0);
      assert BlockOk(c, b, 8, elemSize, groups, k, j);
      assert PlaneOk(b, a, Area(elemSize, groups), k, i);
      forall r: nat | r < 8
        ensures a[8 * i + r] == Eight(input, g, j, elemSize)[r]
      {
        StageIndices(groups, elemSize, g, j, k, r);
      }
      assert a[8 * i..8 * i + 8] == Eight(input, g, j, elemSize);
    }
  }

  /** blosc_internal_bshuf_trans_bit_elem_scal. */
  method TransBitElem(src: seq<byte>, dst: array<byte>, tmp: array<byte>, size: nat, elemSize: nat) returns (count: int)
    requires dst != tmp && Area(size, elemSize) <= |src| && Area(size, elemSize) <= dst.Length && Area(size, elemSize) <= tmp.Length
    modifies dst, tmp
    ensures count == if size % 8 == 0 then Area(size, elemSize) else -80
    ensures count >= 0 ==> BitShuffled(dst[..], src, size / 8, elemSize)
    ensures SameFrom(dst[..], old(dst[..]), Area(size, elemSize))
  {
    hide Ix, Area, Transposed, BlockOk, BitShuffled;
    if size % 8 != 0 {
      return -80;
    }
    var groups := size / 8;
    StageIndices(groups, elemSize, 0, 0, 0, 0);
    AreaSymmetric(groups, elemSize);
    AreaEight(elemSize, groups);
    AreaSymmetric(size, elemSize);
    count := TransByteElemRemainder(src, dst, size, elemSize, 0);
    ghost var a := dst[..];
    count := TransBitByteRemainder(dst[..], tmp, Area(size, elemSize), 0);
    ghost var b := tmp[..];
    TransElem(tmp[..], dst, 8, elemSize, groups);
    StagesShuffle(src, a, b, dst[..], groups, elemSize);
    count := Area(size, elemSize);
  }

  /** The areas of the buffers of the three stages are the same. */
  lemma {:induction false} AreaEight(elemSize: nat, groups: nat)
    ensures Area(Area(8, elemSize), groups) == Area(Area(elemSize, 8), groups) == Area(8, Area(elemSize, groups)) == Area(8 * groups, elemSize)
    ensures Area(8 * elemSize, groups) == Area(8 * groups, elemSize)
    ensures Area(8 * groups, elemSize) / 8 == Area(elemSize, groups) && Area(8 * groups, elemSize) % 8 == 0
  {
    Associates(8, elemSize, groups);
    Associates(8, groups, elemSize);
  }

  // ----- the inverse -----

  /** bshuf_trans_byte_bitrow_scal: the rows of bits become columns. */
  method TransByteBitrow(src: seq<byte>, dst: array<byte>, groups: nat, elemSize: nat)
    requires Area(8 * elemSize, groups) <= |src| && Area(8 * elemSize, groups) <= dst.Length
    modifies dst
    ensures Transposed(dst[..], src, 8 * elemSize, groups)
    ensures SameFrom(dst[..], old(dst[..]), Area(8 * elemSize, groups))
  {
    hide CellOk, Area;
    var jj := 0;
    while jj < elemSize
      invariant jj <= elemSize && RowsOk(dst[..], src, 8 * elemSize, groups, 0, 8 * jj, groups)
      invariant SameFrom(dst[..], old(dst[..]), Area(8 * elemSize, groups))
    {
      var ii := 0;
      while ii < groups
        invariant ii <= groups && RowsOk(dst[..], src, 8 * elemSize, groups, 0, 8 * jj, groups)
        invariant RowsOk(dst[..], src, 8 * elemSize, groups, 8 * jj, 8 * jj + 8, ii)
        invariant SameFrom(dst[..], old(dst[..]), Area(8 * elemSize, groups))
      {
        EightRows(src, dst, groups, elemSize, jj, ii);
        ii := ii + 1;
      }
      jj := jj + 1;
    }
    CellsTransposed(dst[..], src, 8 * elemSize, groups);
  }

  method EightRows(src: seq<byte>, dst: array<byte>, groups: nat, elemSize: nat, jj: nat, ii: nat)
    requires jj < elemSize && ii < groups && Area(8 * elemSize, groups) <= |src| && Area(8 * elemSize, groups) <= dst.Length
    requires RowsOk(dst[..], src, 8 * elemSize, groups, 0, 8 * jj, groups) && RowsOk(dst[..], src, 8 * elemSize, groups, 8 * jj, 8 * jj + 8, ii)
    modifies dst
    ensures RowsOk(dst[..], src, 8 * elemSize, groups, 0, 8 * jj, groups) && RowsOk(dst[..], src, 8 * elemSize, groups, 8 * jj, 8 * jj + 8, ii + 1)
    ensures SameFrom(dst[..], old(dst[..]), Area(8 * elemSize, groups))
  {
    hide CellOk, Area;
    var kk := 0;
    while kk < 8
      invariant kk <= 8 && RowsOk(dst[..], src, 8 * elemSize, groups, 0, 8 * jj, groups)
      invariant RowsOk(dst[..], src, 8 * elemSize, groups, 8 * jj, 8 * jj + 8, ii)
      invariant forall r: nat :: 8 * jj <= r < 8 * jj + kk ==> CellOk(dst[..], src, 8 * elemSize, groups, r, ii)
      invariant SameFrom(dst[..], old(dst[..]), Area(8 * elemSize, groups))
    {
      SetCell(src, dst, 8 * elemSize, groups, 8 * jj + kk, ii);
      kk := kk + 1;
    }
  }

  /** Byte `j` of element `k` of group `g` gathers digit `k` of the eight bytes of that group and byte. */
  ghost predicate ElemOk(out: seq<byte>, input: seq<byte>, elemSize: nat, g: nat, j: nat, k: nat) {
    && Ix(g, 8 * j, 8 * elemSize) + 8 <= |input| && Ix(8 * g + k, j, elemSize) < |out|
    && out[Ix(8 * g + k, j, elemSize)] == Gather(input[Ix(g, 8 * j, 8 * elemSize)..Ix(g, 8 * j, 8 * elemSize) + 8], k)
  }

  /** Elements that were right are right. */
  ghost predicate ElemsKept(now: seq<byte>, was: seq<byte>, input: seq<byte>, elemSize: nat) {
    forall g: nat, j: nat, k: nat :: j < elemSize && k < 8 && ElemOk(was, input, elemSize, g, j, k) ==> ElemOk(now, input, elemSize, g, j, k)
  }

  lemma {:induction false} GroupBounds(groups: nat, elemSize: nat, g: nat, j: nat)
    requires g < groups && j < elemSize
    ensures Ix(g, 8 * j, 8 * elemSize) + 8 <= Area(8 * groups, elemSize)
  {
    RowsBelow(g, groups, 8 * elemSize);
    Associates(8, groups, elemSize);
    Associates(8, elemSize, groups);
  }

  /** One store of a group; elements already right stay right. */
  method SetElem(ghost src: seq<byte>, dst: array<byte>, ghost groups: nat, ghost elemSize: nat, ghost g: nat, ghost j: nat, ghost k: nat,
                 at: nat, v: byte)
    requires g < groups && j < elemSize && k < 8 && Area(8 * groups, elemSize) <= dst.Length && at == Ix(8 * g + k, j, elemSize)
    requires Ix(g, 8 * j, 8 * elemSize) + 8 <= |src| && v == Gather(src[Ix(g, 8 * j, 8 * elemSize)..Ix(g, 8 * j, 8 * elemSize) + 8], k)
    modifies dst
    ensures ElemOk(dst[..], src, elemSize, g, j, k)
    ensures ElemsKept(dst[..], old(dst[..]), src, elemSize)
    ensures SameFrom(dst[..], old(dst[..]), Area(8 * groups, elemSize))
  {
    hide Ix, Area, Gather;
    IxBound(8 * g + k, j, 8 * groups, elemSize);
    IxUnique(8 * g + k, j, elemSize);
    dst[at] := v;
  }

  /** blosc_internal_bshuf_shuffle_bit_eightelem_scal on a little-endian machine: one group and byte. */
  method StoreElems(src: seq<byte>, dst: array<byte>, groups: nat, elemSize: nat, g: nat, j: nat)
    requires g < groups && j < elemSize && Area(8 * groups, elemSize) <= |src| && Area(8 * groups, elemSize) <= dst.Length
    modifies dst
    ensures forall k: nat :: k < 8 ==> ElemOk(dst[..], src, elemSize, g, j, k)
    ensures ElemsKept(dst[..], old(dst[..]), src, elemSize)
    ensures SameFrom(dst[..], old(dst[..]), Area(8 * groups, elemSize))
  {
    hide Ix, Area, Gather, StoredByte, TransBit8x8, Word, Shifted, ShiftByte, ElemOk;
    GroupBounds(groups, elemSize, g, j);
    var at := Ix(g, 8 * j, 8 * elemSize);
    var group := src[at..at + 8];
    var x := TransBit8x8(Word(group));
    ghost var word := x;
    ShiftedNext(word, 0);
    var kk := 0;
    while kk < 8
      invariant kk <= 8 && (kk < 8 ==> x == Shifted(word, kk))
      invariant forall k: nat :: k < kk ==> ElemOk(dst[..], src, elemSize, g, j, k)
      invariant ElemsKept(dst[..], old(dst[..]), src, elemSize)
      invariant SameFrom(dst[..], old(dst[..]), Area(8 * groups, elemSize))
    {
      StoresDigits(group, kk);
      SetElem(src, dst, groups, elemSize, g, j, kk, Ix(8 * g + kk, j, elemSize), StoredByte(x));
      if kk < 7 {
        ShiftedNext(word, kk);
      }
      x := ShiftByte(x);
      kk := kk + 1;
    }
  }

  ghost predicate ElemsOk(out: seq<byte>, input: seq<byte>, groups: nat, elemSize: nat) {
    forall g: nat, j: nat, k: nat :: g < groups && j < elemSize && k < 8 ==> ElemOk(out, input, elemSize, g, j, k)
  }

  method ShuffleBitEightElem(src: seq<byte>, dst: array<byte>, groups: nat, elemSize: nat)
    requires Area(8 * groups, elemSize) <= |src| && Area(8 * groups, elemSize) <= dst.Length
    modifies dst
    ensures ElemsOk(dst[..], src, groups, elemSize)
    ensures SameFrom(dst[..], old(dst[..]), Area(8 * groups, elemSize))
  {
    hide Ix, Area, ElemOk;
    var j := 0;
    while j < elemSize
      invariant j <= elemSize
      invariant forall g': nat, j': nat, k': nat :: g' < groups && j' < j && k' < 8 ==> ElemOk(dst[..], src, elemSize, g', j', k')
      invariant SameFrom(dst[..], old(dst[..]), Area(8 * groups, elemSize))
    {
      var g := 0;
      while g < groups
        invariant g <= groups
        invariant forall g': nat, j': nat, k': nat :: g' < groups && j' < j && k' < 8 ==> ElemOk(dst[..], src, elemSize, g', j', k')
        invariant forall g': nat, k': nat :: g' < g && k' < 8 ==> ElemOk(dst[..], src, elemSize, g', j, k')
        invariant SameFrom(dst[..], old(dst[..]), Area(8 * groups, elemSize))
      {
        StoreElems(src, dst, groups, elemSize, g, j);
        g := g + 1;
      }
      j := j + 1;
    }
  }

  /** The bytes at place `g` of the eight rows of bits of byte `j`. */
  function EightOf(s: seq<byte>, g: nat, j: nat, groups: nat): (e: seq<byte>)
    ensures |e| == 8
  {
    seq(8, r requires 0 <= r < 8 => if Ix(8 * j + r, g, groups) < |s| then s[Ix(8 * j + r, g, groups)] else 0)
  }

  ghost predicate BackCell(out: seq<byte>, input: seq<byte>, groups: nat, elemSize: nat, g: nat, j: nat, k: nat) {
    Ix(8 * g + k, j, elemSize) < |out| && out[Ix(8 * g + k, j, elemSize)] == Gather(EightOf(input, g, j, groups), k)
  }

  /** Byte `j` of element 8 g + k collects bit `k` of the bytes at place `g` of rows 8 j to 8 j + 7. */
  ghost predicate BitUnshuffled(out: seq<byte>, input: seq<byte>, groups: nat, elemSize: nat) {
    && Area(8 * groups, elemSize) <= |input|
    && forall g: nat, j: nat, k: nat :: g < groups && j < elemSize && k < 8 ==> BackCell(out, input, groups, elemSize, g, j, k)
  }

  /** The two inverse stages together. */
  lemma {:induction false} StagesUnshuffle(input: seq<byte>, d: seq<byte>, back: seq<byte>, groups: nat, elemSize: nat)
    requires Transposed(d, input, 8 * elemSize, groups) && ElemsOk(back, d, groups, elemSize) && Area(8 * groups, elemSize) <= |input|
    ensures BitUnshuffled(back, input, groups, elemSize)
  {
    hide Ix, Area, Gather;
    forall g: nat, j: nat, k: nat | g < groups && j < elemSize && k < 8 ensures BackCell(back, input, groups, elemSize, g, j, k) {
      assert ElemOk(back, d, elemSize, g, j, k);
      var at := Ix(g, 8 * j, 8 * elemSize);
      forall r: nat | r < 8 ensures d[at + r] == EightOf(input, g, j, groups)[r] {
        RowIndices(elemSize, groups, g, j, r);
        assert d[Ix(g, 8 * j + r, 8 * elemSize)] == input[Ix(8 * j + r, g, groups)];
      }
      assert d[at..at + 8] == EightOf(input, g, j, groups);
    }
  }

  /** Unshuffling what was shuffled brings every byte of every element back. */
  lemma {:induction false} UnshuffleBitshuffle(input: seq<byte>, shuffled: seq<byte>, back: seq<byte>, groups: nat, elemSize: nat)
    requires BitShuffled(shuffled, input, groups, elemSize) && BitUnshuffled(back, shuffled, groups, elemSize)
    requires Area(8 * groups, elemSize) <= |back|
    ensures Area(8 * groups, elemSize) <= |input| && forall i :: 0 <= i < Area(8 * groups, elemSize) ==> back[i] == input[i]
  {
    hide Ix, Area, Gather, BackCell, BitCell;
    forall i | 0 <= i < Area(8 * groups, elemSize)
      ensures back[i] == input[i]
    {
      var e, j := IxOnto(i, 8 * groups, elemSize);
      ElementBack(input, shuffled, back, groups, elemSize, e / 8, j, e % 8);
    }
  }

  lemma {:induction false} ElementBack(input: seq<byte>, shuffled: seq<byte>, back: seq<byte>, groups: nat, elemSize: nat,
                                       g: nat, j: nat, k: nat)
    requires g < groups && j < elemSize && k < 8
    requires BitShuffled(shuffled, input, groups, elemSize) && BitUnshuffled(back, shuffled, groups, elemSize)
    ensures Ix(8 * g + k, j, elemSize) < |back| && Ix(8 * g + k, j, elemSize) < |input|
    ensures back[Ix(8 * g + k, j, elemSize)] == input[Ix(8 * g + k, j, elemSize)]
  {
    hide Ix, Area, Gather;
    assert BackCell(back, shuffled, groups, elemSize, g, j, k);
    IxBound(8 * g + k, j, 8 * groups, elemSize);
    var t, s := EightOf(shuffled, g, j, groups), Eight(input, g, j, elemSize);
    forall r: nat | r < 8
      ensures t[r] == Gather(s, r)
    {
      assert BitCell(shuffled, input, groups, elemSize, g, j, r);
      RowIndices(elemSize, groups, g, j, r);
    }
    GatherTwice(s, t, k);
  }

  lemma {:induction false} RowIndices(elemSize: nat, groups: nat, g: nat, j: nat, r: nat)
    ensures Ix(Ix(j, r, 8), g, groups) == Ix(8 * j + r, g, groups)
    ensures Ix(g, 8 * j + r, 8 * elemSize) == Ix(g, 8 * j, 8 * elemSize) + r
  {
  }

  /** blosc_internal_bshuf_untrans_bit_elem_scal. */
  method UntransBitElem(src: seq<byte>, dst: array<byte>, tmp: array<byte>, size: nat, elemSize: nat) returns (count: int)
    requires dst != tmp && Area(size, elemSize) <= |src| && Area(size, elemSize) <= dst.Length && Area(size, elemSize) <= tmp.Length
    modifies dst, tmp
    ensures count == if size % 8 == 0 then Area(size, elemSize) else -80
    ensures count >= 0 ==> BitUnshuffled(dst[..], src, size / 8, elemSize)
    ensures SameFrom(dst[..], old(dst[..]), Area(size, elemSize))
  {
    hide Ix, Area, Transposed, ElemsOk, BitUnshuffled;
    if size % 8 != 0 {
      return -80;
    }
    var groups := size / 8;
    AreaEight(elemSize, groups);
    TransByteBitrow(src, tmp, groups, elemSize);
    ShuffleBitEightElem(tmp[..], dst, groups, elemSize);
    count := Area(size, elemSize);
    StagesUnshuffle(src, tmp[..], dst[..], groups, elemSize);
  }

  /** Where every single bit goes: bit `b` of byte `j` of element `e` becomes bit e % 8 of place e / 8 in row 8 j + b. */
  lemma {:induction false} BitLands(out: seq<byte>, input: seq<byte>, groups: nat, elemSize: nat, e: nat, j: nat, b: nat)
    requires BitShuffled(out, input, groups, elemSize) && e < 8 * groups && j < elemSize && b < 8
    ensures Ix(8 * j + b, e / 8, groups) < |out| && Ix(e, j, elemSize) < |input|
    ensures Digit(out[Ix(8 * j + b, e / 8, groups)], e % 8) == Digit(input[Ix(e, j, elemSize)], b)
  {
    hide Ix, Area, Digit, Octet, Gather;
    assert BitCell(out, input, groups, elemSize, e / 8, j, b);
    RowIndices(elemSize, groups, e / 8, j, b);
    GatherDigit(Eight(input, e / 8, j, elemSize), b, e % 8);
    IxBound(e, j, 8 * groups, elemSize);
    assert 8 * (e / 8) + e % 8 == e;
  }

  // ----- the filter entries -----

  /** A bitshuffled block: shuffled when the number of elements is a multiple of eight, otherwise copied. */
  ghost predicate Bitshuffled(out: seq<byte>, block: seq<byte>, typeSize: nat)
    requires typeSize > 0
  {
    && |out| == |block|
    && var size := |block| / typeSize;
    if size % 8 == 0 then
      BitShuffled(out, block, size / 8, typeSize) && forall i :: Area(size, typeSize) <= i < |block| ==> out[i] == block[i]
    else out == block
  }

  lemma {:induction false} WholeElements(n: nat, typeSize: nat)
    requires typeSize > 0
    ensures Area(n / typeSize, typeSize) <= n
  {
  }

  method CopyFrom(src: seq<byte>, dst: array<byte>, offset: nat)
    requires offset <= |src| <= dst.Length
    modifies dst
    ensures forall i :: offset <= i < |src| ==> dst[i] == src[i]
    ensures forall i :: 0 <= i < dst.Length && !(offset <= i < |src|) ==> dst[i] == old(dst[i])
  {
    forall i | offset <= i < |src| {
      dst[i] := src[i];
    }
  }

  /** blosc_internal_bitshuffle. */
  method BitshuffleBlock(typeSize: nat, src: seq<byte>, dst: array<byte>, tmp: array<byte>) returns (ret: int)
    requires typeSize > 0 && dst != tmp && |src| <= dst.Length && |src| <= tmp.Length
    modifies dst, tmp
    ensures ret >= 0 && Bitshuffled(dst[..|src|], src, typeSize)
    ensures var size := |src| / typeSize; ret == if size % 8 == 0 then Area(size, typeSize) else size
    ensures SameFrom(dst[..], old(dst[..]), |src|)
  {
    hide Ix, Area, BitShuffled;
    var size := |src| / typeSize;
    WholeElements(|src|, typeSize);
    if size % 8 != 0 {
      CopyFrom(src, dst, 0);
      assert dst[..|src|] == src;
      return size;
    }
    ret := TransBitElem(src, dst, tmp, size, typeSize);
    ghost var was := dst[..];
    CopyFrom(src, dst, Area(size, typeSize));
    ShuffledWithin(dst[..|src|], was, src, size / 8, typeSize);
  }

  /** The shuffled part does not depend on what follows it. */
  lemma {:induction false} ShuffledWithin(now: seq<byte>, was: seq<byte>, input: seq<byte>, groups: nat, elemSize: nat)
    requires BitShuffled(was, input, groups, elemSize) && Area(8 * groups, elemSize) <= |now| <= |was|
    requires forall i :: 0 <= i < Area(8 * groups, elemSize) ==> now[i] == was[i]
    ensures BitShuffled(now, input, groups, elemSize)
  {
    hide Ix, Area, Gather;
    forall g: nat, j: nat, b: nat | g < groups && j < elemSize && b < 8
      ensures BitCell(now, input, groups, elemSize, g, j, b)
    {
      assert BitCell(was, input, groups, elemSize, g, j, b);
      IxBound(j, b, elemSize, 8);
      IxBound(Ix(j, b, 8), g, Area(elemSize, 8), groups);
      AreaEight(elemSize, groups);
    }
  }

  /** blosc_internal_bitunshuffle: whatever was bitshuffled comes back. */
  method BitunshuffleBlock(typeSize: nat, src: seq<byte>, dst: array<byte>, tmp: array<byte>, ghost original: seq<byte>) returns (ret: int)
    requires typeSize > 0 && dst != tmp && |src| <= dst.Length && |src| <= tmp.Length
    modifies dst, tmp
    ensures ret >= 0 && (Bitshuffled(src, original, typeSize) ==> dst[..|src|] == original)
    ensures var size := |src| / typeSize; ret == if size % 8 == 0 then Area(size, typeSize) else size
    ensures SameFrom(dst[..], old(dst[..]), |src|)
  {
    hide Ix, Area, BitShuffled, BitUnshuffled;
    var size := |src| / typeSize;
    WholeElements(|src|, typeSize);
    if size % 8 != 0 {
      CopyFrom(src, dst, 0);
      assert dst[..|src|] == src;
      return size;
    }
    ret := UntransBitElem(src, dst, tmp, size, typeSize);
    if |src| == |original| && BitShuffled(src, original, size / 8, typeSize) {
      UnshuffleBitshuffle(original, src, dst[..], size / 8, typeSize);
    }
    CopyFrom(src, dst, Area(size, typeSize));
  }
}
