// The vectorized bitshuffle of blosc/bitshuffle-sse2.c (registers of 16 bytes) and blosc/bitshuffle-avx2.c (of 32):
// every stage meets the specification of the scalar stage it replaces.

module BitshuffleVector {
  import opened Bytes
  import opened Stores
  import opened Grids
  import opened Words
  import opened BitMatrix
  import opened Bitshuffle
  import opened BitshuffleMasks
  import opened BitshuffleKernels
  import opened Registers
  import opened Networks
  import ShuffleKernels
  import V = ShuffleVector

  // ----- counting in whole registers -----

  predicate Multiple(i: nat, w: nat)
    requires w > 0
  {
    Rem(i, w) == 0
  }

  lemma {:induction false} FirstMultiple(w: nat)
    requires w == 16 || w == 32
    ensures Multiple(0, w)
  {
    hide Quot, Rem;
    Parts(0, 0, 0, w);
  }

  lemma {:induction false} RemIs(n: nat, m: nat)
    requires m > 0
    ensures Rem(n, m) == n % m
  {
  }

  lemma {:induction false} NextMultiple(i: nat, w: nat)
    requires (w == 16 || w == 32) && Multiple(i, w)
    ensures Multiple(i + w, w) && i % 8 == 0
  {
    hide Quot, Rem;
    PartsBack(i, w);
    Parts(i + w, Quot(i, w) + 1, 0, w);
    Parts(i, if w == 16 then 2 * Quot(i, w) else 4 * Quot(i, w), 0, 8);
    RemIs(i, 8);
  }

  /** The loops end at the last multiple, where the remainder begins. */
  lemma {:induction false} LastMultiple(n: nat, i: nat, w: nat)
    requires (w == 16 || w == 32) && Multiple(i, w) && i <= n < i + w
    ensures n - n % w == i && i % 8 == 0
  {
    hide Quot, Rem;
    NextMultiple(i, w);
    PartsBack(i, w);
    Parts(n, Quot(i, w), n - i, w);
    RemIs(n, w);
  }

  // ----- bytes within elements of 2, 4 or 8 bytes -----

  /** The network for an element size. */
  method TurnElements(mm: array<Reg>, elemSize: nat)
    requires (elemSize == 2 || elemSize == 4 || elemSize == 8) && File(mm[..], elemSize, 16)
    modifies mm
    ensures ShuffleKernels.Turned(mm[..], old(mm[..]), elemSize, 16)
  {
    hide ShuffleKernels.Turned;
    var spare := V.SpareFile(elemSize, 16);
    if elemSize == 2 {
      Elements16(mm, spare);
    } else if elemSize == 4 {
      Elements32(mm, spare);
    } else {
      Elements64(mm, spare);
    }
  }

  lemma {:induction false} GroupsToRows(out: seq<byte>, src: seq<byte>, size: nat, elemSize: nat, ready: nat)
    requires V.CellsTo(out, src, size, elemSize, ready, 0, 0) && ready <= size
    ensures RowsOk(out, src, size, elemSize, 0, ready, elemSize)
  {
    hide CellOk;
  }

  /** Sixteen elements from `ii` on. */
  method TransSixteen(src: seq<byte>, dst: array<byte>, size: nat, elemSize: nat, ii: nat)
    requires elemSize == 2 || elemSize == 4 || elemSize == 8
    requires ii + 16 <= size && Area(size, elemSize) <= |src| && Area(size, elemSize) <= dst.Length
    requires V.CellsTo(dst[..], src, size, elemSize, ii, 0, 0)
    modifies dst
    ensures V.CellsTo(dst[..], src, size, elemSize, ii + 16, 0, 0) && SameFrom(dst[..], old(dst[..]), Area(size, elemSize))
  {
    hide Area, CellOk, V.Loaded, V.Columns, ShuffleKernels.Turned;
    var mm := V.LoadFlat(src, elemSize, ii, 16, size);
    V.LoadedFile(mm[..], src, elemSize, 0, ii, elemSize, 16);
    ghost var x := mm[..];
    TurnElements(mm, elemSize);
    V.TurnedColumns(mm[..], x, src, elemSize, 0, ii, elemSize, 16);
    V.StoreColumns(src, dst, size, elemSize, 0, ii, mm, elemSize, 16);
  }

  lemma {:induction false} NoGroups(out: seq<byte>, src: seq<byte>, size: nat, elemSize: nat)
    ensures V.CellsTo(out, src, size, elemSize, 0, 0, 0)
  {
  }

  /** bshuf_trans_byte_elem_SSE_16, _SSE_32 and _SSE_64: sixteen elements at a time, then the scalar remainder. */
  method TransElements(src: seq<byte>, dst: array<byte>, size: nat, elemSize: nat) returns (count: int)
    requires elemSize == 2 || elemSize == 4 || elemSize == 8
    requires Area(size, elemSize) <= |src| && Area(size, elemSize) <= dst.Length
    modifies dst
    ensures count >= 0 && Transposed(dst[..], src, size, elemSize)
    ensures SameFrom(dst[..], old(dst[..]), Area(size, elemSize))
  {
    hide Area, V.CellsTo, RowsOk, Transposed, Multiple;
    var ii := 0;
    NoGroups(dst[..], src, size, elemSize);
    FirstMultiple(16);
    while ii + 15 < size
      invariant ii <= size && Multiple(ii, 16)
      invariant V.CellsTo(dst[..], src, size, elemSize, ii, 0, 0) && SameFrom(dst[..], old(dst[..]), Area(size, elemSize))
    {
      TransSixteen(src, dst, size, elemSize, ii);
      NextMultiple(ii, 16);
      ii := ii + 16;
    }
    GroupsToRows(dst[..], src, size, elemSize, ii);
    LastMultiple(size, ii, 16);
    count := TransByteElemRemainder(src, dst, size, elemSize, size - size % 16);
  }

  // ----- longer elements, piece by piece -----

  /** TRANS_ELEM_TYPE with a type of `len` bytes. */
  method TransElemType(src: seq<byte>, dst: array<byte>, lda: nat, ldb: nat, len: nat)
    requires Area(Area(lda, ldb), len) <= |src| && Area(Area(ldb, lda), len) <= dst.Length
    modifies dst
    ensures forall i: nat, j: nat :: i < lda && j < ldb ==> BlockOk(dst[..], src, lda, ldb, len, i, j)
    ensures SameFrom(dst[..], old(dst[..]), Area(Area(ldb, lda), len))
  {
    hide Area, BlockOk;
    var ii := 0;
    while ii + 7 < lda
      invariant ii <= lda && ii % 8 == 0 && forall i: nat, j: nat :: i < ii && j < ldb ==> BlockOk(dst[..], src, lda, ldb, len, i, j)
      invariant SameFrom(dst[..], old(dst[..]), Area(Area(ldb, lda), len))
    {
      var jj := 0;
      while jj < ldb
        invariant jj <= ldb && forall i: nat, j: nat :: i < ii && j < ldb ==> BlockOk(dst[..], src, lda, ldb, len, i, j)
        invariant forall i: nat, j: nat :: i < ii + 8 && j < jj ==> BlockOk(dst[..], src, lda, ldb, len, i, j)
        invariant SameFrom(dst[..], old(dst[..]), Area(Area(ldb, lda), len))
      {
        EightBlocks(src, dst, lda, ldb, len, ii, jj);
        jj := jj + 1;
      }
      ii := ii + 8;
    }
    assert ii == lda - lda % 8;
    while ii < lda
      invariant ii <= lda && forall i: nat, j: nat :: i < ii && j < ldb ==> BlockOk(dst[..], src, lda, ldb, len, i, j)
      invariant SameFrom(dst[..], old(dst[..]), Area(Area(ldb, lda), len))
    {
      var jj := 0;
      while jj < ldb
        invariant jj <= ldb && forall i: nat, j: nat :: i < ii && j < ldb ==> BlockOk(dst[..], src, lda, ldb, len, i, j)
        invariant forall j: nat :: j < jj ==> BlockOk(dst[..], src, lda, ldb, len, ii, j)
        invariant SameFrom(dst[..], old(dst[..]), Area(Area(ldb, lda), len))
      {
        SetBlock(src, dst, lda, ldb, len, ii, jj);
        jj := jj + 1;
      }
      ii := ii + 1;
    }
  }

  method EightBlocks(src: seq<byte>, dst: array<byte>, lda: nat, ldb: nat, len: nat, ii: nat, jj: nat)
    requires ii + 8 <= lda && jj < ldb && Area(Area(lda, ldb), len) <= |src| && Area(Area(ldb, lda), len) <= dst.Length
    modifies dst
    ensures forall i: nat :: ii <= i < ii + 8 ==> BlockOk(dst[..], src, lda, ldb, len, i, jj)
    ensures forall i: nat, j: nat :: i < lda && j < ldb && BlockOk(old(dst[..]), src, lda, ldb, len, i, j) ==> BlockOk(dst[..], src, lda, ldb, len, i, j)
    ensures SameFrom(dst[..], old(dst[..]), Area(Area(ldb, lda), len))
  {
    hide Area, BlockOk;
    var kk := 0;
    while kk < 8
      invariant kk <= 8 && forall i: nat :: ii <= i < ii + kk ==> BlockOk(dst[..], src, lda, ldb, len, i, jj)
      invariant forall i: nat, j: nat :: i < lda && j < ldb && BlockOk(old(dst[..]), src, lda, ldb, len, i, j) ==> BlockOk(dst[..], src, lda, ldb, len, i, j)
      invariant SameFrom(dst[..], old(dst[..]), Area(Area(ldb, lda), len))
    {
      SetBlock(src, dst, lda, ldb, len, ii + kk, jj);
      kk := kk + 1;
    }
  }

  /** Indices of the three steps agree. */
  lemma {:induction false} PieceIndices(size: nat, n: nat, len: nat, i: nat, j: nat, t: nat)
    ensures Ix(i, Ix(j, t, len), Area(n, len)) == Ix(Ix(i, j, n), t, len)
    ensures Ix(t, Ix(j, i, size), Area(n, size)) == Ix(Ix(t, j, n), i, size)
    ensures Area(Area(size, n), len) == Area(Area(n, size), len) == Area(Area(len, n), size) == Area(Area(n, len), size) == Area(size, Area(n, len))
  {
    Distributes(i * n, j, len);
    Associates(i, n, len);
    Distributes(t * n, j, size);
    Associates(t, n, size);
    Associates(size, n, len);
    Associates(len, n, size);
    Associates(n, size, len);
  }

  /** Pieces across elements, bytes within pieces, rows of bytes into place: together the bytes within elements. */
  lemma {:induction false} PiecesTransposed(input: seq<byte>, a: seq<byte>, b: seq<byte>, c: seq<byte>, size: nat, n: nat, len: nat)
    requires Area(Area(size, n), len) <= |input| && Area(Area(size, n), len) <= |c|
    requires forall i: nat, j: nat :: i < size && j < n ==> BlockOk(a, input, size, n, len, i, j)
    requires Transposed(b, a, Area(n, size), len)
    requires forall t: nat, j: nat :: t < len && j < n ==> BlockOk(c, b, len, n, size, t, j)
    ensures Transposed(c, input, size, Area(n, len))
  {
    hide Area, Ix, BlockOk, Transposed;
    PieceIndices(size, n, len, 0, 0, 0);
    forall i: nat, col: nat | i < size && col < Area(n, len) ensures CellOk(c, input, size, Area(n, len), i, col) {
      var j, t := IxOnto(col, n, len);
      PieceCell(input, a, b, c, size, n, len, i, j, t);
    }
    CellsTransposed(c, input, size, Area(n, len));
  }

  lemma {:induction false} PieceCell(input: seq<byte>, a: seq<byte>, b: seq<byte>, c: seq<byte>, size: nat, n: nat, len: nat, i: nat, j: nat, t: nat)
    requires BlockOk(a, input, size, n, len, i, j) && Transposed(b, a, Area(n, size), len) && BlockOk(c, b, len, n, size, t, j)
    requires i < size && j < n && t < len
    ensures CellOk(c, input, size, Area(n, len), i, Ix(j, t, len))
  {
    hide Area, Ix;
    PieceIndices(size, n, len, i, j, t);
    IxBound(j, i, n, size);
    assert b[Ix(t, Ix(j, i, size), Area(n, size))] == a[Ix(Ix(j, i, size), t, len)];
  }

  /** The hierarchical transpose of elements of `n` pieces of four or eight bytes. */
  method TransPieces(src: seq<byte>, dst: array<byte>, tmp: array<byte>, size: nat, n: nat, len: nat) returns (count: int)
    requires dst != tmp && (len == 4 || len == 8)
    requires Area(Area(size, n), len) <= |src| && Area(Area(size, n), len) <= dst.Length && Area(Area(size, n), len) <= tmp.Length
    modifies dst, tmp
    ensures count >= 0 && Transposed(dst[..], src, size, Area(n, len))
    ensures SameFrom(dst[..], old(dst[..]), Area(Area(size, n), len))
  {
    hide Area, Ix, BlockOk, Transposed;
    PieceIndices(size, n, len, 0, 0, 0);
    TransElemType(src, dst, size, n, len);
    ghost var a := dst[..];
    count := TransElements(dst[..], tmp, Area(n, size), len);
    ghost var b := tmp[..];
    TransElem(tmp[..], dst, len, n, size);
    PiecesTransposed(src, a, b, dst[..], size, n, len);
  }

  lemma {:induction false} SingleBytes(out: seq<byte>, input: seq<byte>, size: nat)
    requires size <= |input| && size <= |out| && forall i :: 0 <= i < size ==> out[i] == input[i]
    ensures Transposed(out, input, size, 1)
  {
  }

  lemma {:induction false} Pieces(size: nat, elemSize: nat, len: nat)
    requires len > 0 && elemSize % len == 0
    ensures Area(elemSize / len, len) == elemSize
    ensures Area(Area(size, elemSize / len), len) == Area(size, elemSize)
  {
    Associates(size, elemSize / len, len);
  }

  /** blosc_internal_bshuf_trans_byte_elem_sse2. */
  method TransByteElem(src: seq<byte>, dst: array<byte>, tmp: array<byte>, size: nat, elemSize: nat) returns (count: int)
    requires dst != tmp && Area(size, elemSize) <= |src| && Area(size, elemSize) <= dst.Length && Area(size, elemSize) <= tmp.Length
    modifies dst, tmp
    ensures count >= 0 && Transposed(dst[..], src, size, elemSize)
    ensures SameFrom(dst[..], old(dst[..]), Area(size, elemSize))
  {
    hide Area, Transposed, RowsOk;
    if elemSize == 1 {
      AreaOne(size);
      forall i | 0 <= i < size {
        dst[i] := src[i];
      }
      SingleBytes(dst[..], src, size);
      return size;
    } else if elemSize == 2 || elemSize == 4 || elemSize == 8 {
      count := TransElements(src, dst, size, elemSize);
      return;
    }
    if elemSize % 4 != 0 {
      NoRowsYet(dst[..], src, size, elemSize);
      count := TransByteElemRemainder(src, dst, size, elemSize, 0);
      return;
    }
    var len := if elemSize % 8 == 0 then 8 else 4;
    Pieces(size, elemSize, len);
    count := TransPieces(src, dst, tmp, size, elemSize / len, len);
  }

  lemma {:induction false} AreaOne(size: nat)
    ensures Area(size, 1) == size
  {
  }

  lemma {:induction false} NoRowsYet(out: seq<byte>, src: seq<byte>, h: nat, w: nat)
    ensures RowsOk(out, src, h, w, 0, 0, w)
  {
  }

  // ----- bits within bytes -----

  /** Where the store of a mask goes. */
  lemma {:induction false} PlaneAddress(k: nat, rows: nat, ii: nat)
    requires ii % 8 == 0
    ensures (k * (8 * rows) + ii) / 8 == Ix(k, ii / 8, rows)
  {
    Associates(k, 8, rows);
    Eighths(k * rows, ii / 8);
  }

  lemma {:induction false} Eighths(a: nat, b: nat)
    ensures (8 * a + 8 * b) / 8 == a + b
  {
  }

  /** The store of one mask: as many bytes as there are groups of eight in a register. */
  method StorePlanes(ghost src: seq<byte>, dst: array<byte>, ghost rows: nat, ghost k: nat, ghost i: nat, at: nat,
                     ghost was: Reg, now: Reg, w: nat)
    requires (w == 16 || w == 32) && k < 8 && 8 * i + w <= 8 * rows <= |src| && Area(8, rows) <= dst.Length && at == Ix(k, i, rows)
    requires was == src[8 * i..8 * i + w] && Risen(now, was, 7 - k)
    modifies dst
    ensures forall c: nat :: i <= c < i + w / 8 ==> PlaneOk(dst[..], src, rows, k, c)
    ensures PlanesKept(dst[..], old(dst[..]), src, rows)
    ensures SameFrom(dst[..], old(dst[..]), Area(8, rows))
  {
    hide Area, Gather, PlaneOk, Risen, StoredPart, MoveMask;
    var mask := MoveMask(now);
    for c := 0 to w / 8
      invariant forall c': nat :: i <= c' < i + c ==> PlaneOk(dst[..], src, rows, k, c')
      invariant PlanesKept(dst[..], old(dst[..]), src, rows)
      invariant SameFrom(dst[..], old(dst[..]), Area(8, rows))
    {
      RisenSize(now, was, 7 - k);
      RisenGathers(now, was, 7 - k, c);
      EightOfSlice(src, 8 * i, w, 8 * c);
      SetPlane(src, dst, rows, k, i + c, at + c, StoredPart(mask, c));
    }
  }

  lemma {:induction false} EightOfSlice(src: seq<byte>, at: nat, w: nat, lo: nat)
    requires at + w <= |src| && lo + 8 <= w
    ensures src[at..at + w][lo..lo + 8] == src[at + lo..at + lo + 8]
  {
    var s, t := src[at..at + w][lo..lo + 8], src[at + lo..at + lo + 8];
    assert forall i :: 0 <= i < 8 ==> s[i] == src[at + (lo + i)] == t[i];
    assert |s| == |t| == 8;
  }

  lemma {:induction false} RisenSize(now: Reg, was: Reg, k: nat)
    requires Risen(now, was, k)
    ensures |now| == |was|
  {
  }

  lemma {:induction false} NotYetRisen(x: Reg)
    ensures Risen(x, x, 0)
  {
    hide Digit;
  }

  /** Eight masks of one register. */
  method StoreMasks(src: seq<byte>, dst: array<byte>, rows: nat, ii: nat, w: nat)
    requires (w == 16 || w == 32) && ii % 8 == 0 && ii + w <= 8 * rows <= |src| && Area(8, rows) <= dst.Length
    requires PlanesOk(dst[..], src, rows, 0, ii / 8)
    modifies dst
    ensures PlanesOk(dst[..], src, rows, 0, (ii + w) / 8)
    ensures SameFrom(dst[..], old(dst[..]), Area(8, rows))
  {
    hide Area, Ix, Gather, PlaneOk, Risen;
    var xmm := src[ii..ii + w];
    ghost var was := xmm;
    ghost var i := ii / 8;
    NotYetRisen(xmm);
    var kk := 0;
    while kk < 8
      invariant kk <= 8 && Risen(xmm, was, kk) && PlanesOk(dst[..], src, rows, 0, i)
      invariant forall k: nat, c: nat :: 8 - kk <= k < 8 && i <= c < i + w / 8 ==> PlaneOk(dst[..], src, rows, k, c)
      invariant SameFrom(dst[..], old(dst[..]), Area(8, rows))
    {
      PlaneAddress(7 - kk, rows, ii);
      StorePlanes(src, dst, rows, 7 - kk, i, ((7 - kk) * (8 * rows) + ii) / 8, was, xmm, w);
      RisenNext(xmm, was, kk);
      xmm := ShiftWords(xmm);
      kk := kk + 1;
    }
  }

  /** bshuf_trans_bit_byte_sse2 and bshuf_trans_bit_byte_avx2. */
  method TransBitByte(src: seq<byte>, dst: array<byte>, nbyte: nat, w: nat) returns (count: int)
    requires (w == 16 || w == 32) && nbyte % 8 == 0 && nbyte <= |src| && Area(8, nbyte / 8) <= dst.Length
    modifies dst
    ensures count >= 0 && PlanesOk(dst[..], src, nbyte / 8, 0, nbyte / 8)
    ensures SameFrom(dst[..], old(dst[..]), Area(8, nbyte / 8))
  {
    hide Area, PlanesOk, Multiple;
    var ii := 0;
    FirstMultiple(w);
    NoPlanes(dst[..], src, nbyte / 8);
    while ii + (w - 1) < nbyte
      invariant ii <= nbyte && Multiple(ii, w) && PlanesOk(dst[..], src, nbyte / 8, 0, ii / 8)
      invariant SameFrom(dst[..], old(dst[..]), Area(8, nbyte / 8))
    {
      NextMultiple(ii, w);
      StoreMasks(src, dst, nbyte / 8, ii, w);
      ii := ii + w;
    }
    LastMultiple(nbyte, ii, w);
    count := TransBitByteRemainder(src, dst, nbyte, nbyte - nbyte % w);
  }

  lemma {:induction false} NoPlanes(out: seq<byte>, src: seq<byte>, rows: nat)
    ensures PlanesOk(out, src, rows, 0, 0)
  {
  }

  // ----- rows of bits to columns -----

  /** The `w` bytes from column `jj` on of rows `row` to row + 7. */
  ghost predicate EightLoaded(x: seq<Reg>, src: seq<byte>, groups: nat, row: nat, jj: nat, w: nat) {
    File(x, 8, w) && forall r, c :: 0 <= r < 8 && 0 <= c < w ==> LoadedCell(x, src, groups, row, jj, r, c)
  }

  ghost predicate LoadedCell(x: seq<Reg>, src: seq<byte>, groups: nat, row: nat, jj: nat, r: nat, c: nat) {
    && r < |x| && c < |x[r]| && Ix(row + r, jj + c, groups) < |src| && x[r][c] == src[Ix(row + r, jj + c, groups)]
  }

  lemma {:induction false} RowPartFits(r: nat, jj: nat, w: nat, rows: nat, groups: nat)
    requires r < rows && jj + w <= groups
    ensures Ix(r, jj, groups) + w <= Area(rows, groups)
  {
    RowsBelow(r, rows, groups);
  }

  method LoadEight(src: seq<byte>, rows: nat, groups: nat, row: nat, jj: nat, w: nat) returns (mm: array<Reg>)
    requires (w == 16 || w == 32) && row + 8 <= rows && jj + w <= groups && Area(rows, groups) <= |src|
    ensures fresh(mm) && EightLoaded(mm[..], src, groups, row, jj, w)
  {
    hide Area, Ix;
    mm := V.SpareFile(8, w);
    for k := 0 to 8
      invariant File(mm[..], 8, w)
      invariant forall r, c :: 0 <= r < k && 0 <= c < w ==> LoadedCell(mm[..], src, groups, row, jj, r, c)
    {
      RowPartFits(row + k, jj, w, rows, groups);
      var at := Ix(row + k, jj, groups);
      ghost var was := mm[..];
      mm[k] := src[at..at + w];
      LoadedNext(mm[..], was, src, groups, row, jj, w, k);
    }
  }

  lemma {:induction false} LoadedNext(now: seq<Reg>, was: seq<Reg>, src: seq<byte>, groups: nat, row: nat, jj: nat, w: nat, k: nat)
    requires File(was, 8, w) && k < 8 && forall r, c :: 0 <= r < k && 0 <= c < w ==> LoadedCell(was, src, groups, row, jj, r, c)
    requires var at := Ix(row + k, jj, groups); at + w <= |src| && now == was[k := src[at..at + w]]
    ensures File(now, 8, w) && forall r, c :: 0 <= r < k + 1 && 0 <= c < w ==> LoadedCell(now, src, groups, row, jj, r, c)
  {
    hide Ix;
    forall r, c | 0 <= r < k + 1 && 0 <= c < w ensures LoadedCell(now, src, groups, row, jj, r, c) {
      if r < k {
        assert LoadedCell(was, src, groups, row, jj, r, c);
      } else {
        IxRow(row + k, jj + c, groups);
        IxRow(row + k, jj, groups);
      }
    }
  }

  /** Bytes `at` to at + n of a register to rows `row` to row + n of one column. */
  method StoreColumn(ghost src: seq<byte>, dst: array<byte>, rows: nat, groups: nat, row: nat, col: nat, z: Reg, at: nat, n: nat)
    requires row + n <= rows && col < groups && at + n <= |z|
    requires Area(rows, groups) <= |src| && Area(rows, groups) <= dst.Length
    requires ColumnPart(src, groups, row, col, z, at, n)
    modifies dst
    ensures forall r: nat :: row <= r < row + n ==> CellOk(dst[..], src, rows, groups, r, col)
    ensures CellsStay(dst[..], old(dst[..]), src, rows, groups)
    ensures SameFrom(dst[..], old(dst[..]), Area(rows, groups))
  {
    hide Area, Ix, CellOk;
    for i := 0 to n
      invariant forall r: nat :: row <= r < row + i ==> CellOk(dst[..], src, rows, groups, r, col)
      invariant CellsStay(dst[..], old(dst[..]), src, rows, groups)
      invariant SameFrom(dst[..], old(dst[..]), Area(rows, groups))
    {
      assert ColumnByte(src, groups, row, col, z, at, i);
      V.PutCell(src, dst, rows, groups, row + i, col, z[at + i]);
    }
  }

  ghost predicate ColumnByte(src: seq<byte>, groups: nat, row: nat, col: nat, z: Reg, at: nat, i: nat) {
    at + i < |z| && Ix(row + i, col, groups) < |src| && z[at + i] == src[Ix(row + i, col, groups)]
  }

  /** Bytes `at` to at + n of a register are part of a column. */
  ghost predicate ColumnPart(src: seq<byte>, groups: nat, row: nat, col: nat, z: Reg, at: nat, n: nat) {
    forall i: nat :: i < n ==> ColumnByte(src, groups, row, col, z, at, i)
  }

  /** Sixteen columns of eight rows. */
  method SixteenColumns(src: seq<byte>, dst: array<byte>, rows: nat, groups: nat, row: nat, jj: nat)
    requires row + 8 <= rows && jj + 16 <= groups && Area(rows, groups) <= |src| && Area(rows, groups) <= dst.Length
    modifies dst
    ensures forall r: nat, c: nat :: row <= r < row + 8 && jj <= c < jj + 16 ==> CellOk(dst[..], src, rows, groups, r, c)
    ensures CellsStay(dst[..], old(dst[..]), src, rows, groups)
    ensures SameFrom(dst[..], old(dst[..]), Area(rows, groups))
  {
    hide Area, Ix, CellOk, RowsTurned, EightLoaded, ColumnPart;
    var mm := LoadEight(src, rows, groups, row, jj, 16);
    EightFile(mm[..], src, groups, row, jj, 16);
    ghost var x := mm[..];
    var yy := V.SpareFile(8, 16);
    TurnRows(mm, yy, 16);
    TurnedFile(yy[..], x, 16);
    ghost var y := yy[..];
    for k := 0 to 8
      invariant yy[..] == y
      invariant forall r: nat, c: nat :: row <= r < row + 8 && jj <= c < jj + 2 * k ==> CellOk(dst[..], src, rows, groups, r, c)
      invariant CellsStay(dst[..], old(dst[..]), src, rows, groups)
      invariant SameFrom(dst[..], old(dst[..]), Area(rows, groups))
    {
      TurnedColumn(y, x, src, groups, row, jj, 16, 0, 0, k);
      TurnedColumn(y, x, src, groups, row, jj, 16, 0, 1, k);
      StoreColumn(src, dst, rows, groups, row, jj + 2 * k, yy[k], 0, 8);
      StoreColumn(src, dst, rows, groups, row, jj + (2 * k + 1), yy[k], 8, 8);
    }
  }

  lemma {:induction false} EightFile(x: seq<Reg>, src: seq<byte>, groups: nat, row: nat, jj: nat, w: nat)
    requires EightLoaded(x, src, groups, row, jj, w)
    ensures File(x, 8, w)
  {
  }

  lemma {:induction false} TurnedFile(y: seq<Reg>, x: seq<Reg>, w: nat)
    requires RowsTurned(y, x, w)
    ensures File(y, 8, w)
  {
  }

  /** Half `h` of lane `t` of register `k` is a column. */
  lemma {:induction false} TurnedColumn(y: seq<Reg>, x: seq<Reg>, src: seq<byte>, groups: nat, row: nat, jj: nat, w: nat, t: bit, h: bit, k: nat)
    requires RowsTurned(y, x, w) && EightLoaded(x, src, groups, row, jj, w) && 16 * t < w && k < 8
    ensures k < |y| && ColumnPart(src, groups, row, jj + (16 * t + 2 * k + h), y[k], 16 * t + 8 * h, 8)
  {
    hide Ix;
    assert k < |y|;
    var col, z, at := jj + (16 * t + 2 * k + h), y[k], 16 * t + 8 * h;
    forall i: nat | i < 8 ensures ColumnByte(src, groups, row, col, z, at, i) {
      assert RowCell(y, x, t, h, k, i);
      assert LoadedCell(x, src, groups, row, jj, i, 16 * t + 2 * k + h);
    }
  }

  /** blosc_internal_bshuf_trans_byte_bitrow_sse2. */
  method TransByteBitrowSse2(src: seq<byte>, dst: array<byte>, groups: nat, elemSize: nat)
    requires Area(8 * elemSize, groups) <= |src| && Area(8 * elemSize, groups) <= dst.Length
    modifies dst
    ensures Transposed(dst[..], src, 8 * elemSize, groups)
    ensures SameFrom(dst[..], old(dst[..]), Area(8 * elemSize, groups))
  {
    hide CellOk, Area;
    var e := 0;
    while e < elemSize
      invariant e <= elemSize && RowsOk(dst[..], src, 8 * elemSize, groups, 0, 8 * e, groups)
      invariant SameFrom(dst[..], old(dst[..]), Area(8 * elemSize, groups))
    {
      BitrowBand(src, dst, groups, elemSize, e);
      e := e + 1;
    }
    CellsTransposed(dst[..], src, 8 * elemSize, groups);
  }

  /** Eight rows: sixteen columns at a time, then one by one. */
  method BitrowBand(src: seq<byte>, dst: array<byte>, groups: nat, elemSize: nat, e: nat)
    requires e < elemSize && Area(8 * elemSize, groups) <= |src| && Area(8 * elemSize, groups) <= dst.Length
    requires RowsOk(dst[..], src, 8 * elemSize, groups, 0, 8 * e, groups)
    modifies dst
    ensures RowsOk(dst[..], src, 8 * elemSize, groups, 0, 8 * e + 8, groups)
    ensures SameFrom(dst[..], old(dst[..]), Area(8 * elemSize, groups))
  {
    hide CellOk, Area;
    var jj := 0;
    while jj + 15 < groups
      invariant jj <= groups && jj % 16 == 0 && RowsOk(dst[..], src, 8 * elemSize, groups, 0, 8 * e, groups)
      invariant RowsOk(dst[..], src, 8 * elemSize, groups, 8 * e, 8 * e + 8, jj)
      invariant SameFrom(dst[..], old(dst[..]), Area(8 * elemSize, groups))
    {
      SixteenColumns(src, dst, 8 * elemSize, groups, 8 * e, jj);
      jj := jj + 16;
    }
    assert jj == groups - groups % 16;
    while jj < groups
      invariant jj <= groups && RowsOk(dst[..], src, 8 * elemSize, groups, 0, 8 * e, groups)
      invariant RowsOk(dst[..], src, 8 * elemSize, groups, 8 * e, 8 * e + 8, jj)
      invariant SameFrom(dst[..], old(dst[..]), Area(8 * elemSize, groups))
    {
      EightRows(src, dst, groups, elemSize, e, jj);
      jj := jj + 1;
    }
  }

  /** Thirty-two columns of thirty-two rows: four times eight rows, then column by column. */
  method SquareOfRows(src: seq<byte>, dst: array<byte>, rows: nat, groups: nat, row: nat, jj: nat)
    requires row + 32 <= rows && jj + 32 <= groups && Area(rows, groups) <= |src| && Area(rows, groups) <= dst.Length
    modifies dst
    ensures forall r: nat, c: nat :: row <= r < row + 32 && jj <= c < jj + 32 ==> CellOk(dst[..], src, rows, groups, r, c)
    ensures CellsStay(dst[..], old(dst[..]), src, rows, groups)
    ensures SameFrom(dst[..], old(dst[..]), Area(rows, groups))
  {
    hide Area, Ix, CellOk, RowsTurned, EightLoaded, Quartered, Stored, ColumnPart;
    var storage: seq<seq<Reg>> := [];
    for hh := 0 to 4
      modifies {}
      invariant dst[..] == old(dst[..]) && |storage| == hh && forall g :: 0 <= g < hh ==> Stored(storage[g], src, groups, row + 8 * g, jj)
    {
      var mm := LoadEight(src, rows, groups, row + 8 * hh, jj, 32);
      EightFile(mm[..], src, groups, row + 8 * hh, jj, 32);
      ghost var x := mm[..];
      var yy := V.SpareFile(8, 32);
      TurnRows(mm, yy, 32);
      StoredColumns(yy[..], x, src, groups, row + 8 * hh, jj);
      storage := storage + [yy[..]];
    }
    for m := 0 to 8
      invariant forall r: nat, c: nat :: row <= r < row + 32 && jj <= c < jj + 32 && (c - jj) % 16 < 2 * m ==> CellOk(dst[..], src, rows, groups, r, c)
      invariant CellsStay(dst[..], old(dst[..]), src, rows, groups)
      invariant SameFrom(dst[..], old(dst[..]), Area(rows, groups))
    {
      StoredFiles(storage, src, groups, row, jj);
      var y := [storage[0][m], storage[1][m], storage[2][m], storage[3][m]];
      var z := Quarter(y);
      QuarterFile(z, y);
      QuarterColumns(z, y, storage, src, groups, row, jj, m);
      StoreColumn(src, dst, rows, groups, row, jj + (0 + 2 * m + 0), z[0], 0, 32);
      StoreColumn(src, dst, rows, groups, row, jj + (0 + 2 * m + 1), z[1], 0, 32);
      StoreColumn(src, dst, rows, groups, row, jj + (16 + 2 * m + 0), z[2], 0, 32);
      StoreColumn(src, dst, rows, groups, row, jj + (16 + 2 * m + 1), z[3], 0, 32);
    }
  }

  /** Eight registers of which register `k` holds columns 2 k and 2 k + 1 of eight rows in each lane. */
  ghost predicate Stored(y: seq<Reg>, src: seq<byte>, groups: nat, row: nat, jj: nat) {
    && File(y, 8, 32)
    && forall t: bit, h: bit, k: nat, i: nat :: k < 8 && i < 8 ==> StoredByteOk(y, src, groups, row, jj, t, h, k, i)
  }

  ghost predicate StoredByteOk(y: seq<Reg>, src: seq<byte>, groups: nat, row: nat, jj: nat, t: bit, h: bit, k: nat, i: nat) {
    k < |y| && ColumnByte(src, groups, row, jj + (16 * t + 2 * k + h), y[k], 16 * t + 8 * h, i)
  }

  lemma {:induction false} StoredColumns(y: seq<Reg>, x: seq<Reg>, src: seq<byte>, groups: nat, row: nat, jj: nat)
    requires RowsTurned(y, x, 32) && EightLoaded(x, src, groups, row, jj, 32)
    ensures Stored(y, src, groups, row, jj)
  {
    hide Ix, EightLoaded, RowsTurned, ColumnByte;
    TurnedFile(y, x, 32);
    forall t: bit, h: bit, k: nat, i: nat | k < 8 && i < 8 ensures StoredByteOk(y, src, groups, row, jj, t, h, k, i) {
      TurnedColumn(y, x, src, groups, row, jj, 32, t, h, k);
    }
  }

  lemma {:induction false} StoredFiles(storage: seq<seq<Reg>>, src: seq<byte>, groups: nat, row: nat, jj: nat)
    requires |storage| == 4 && forall g :: 0 <= g < 4 ==> Stored(storage[g], src, groups, row + 8 * g, jj)
    ensures forall g :: 0 <= g < 4 ==> File(storage[g], 8, 32)
  {
  }

  lemma {:induction false} QuarterFile(z: seq<Reg>, y: seq<Reg>)
    requires Quartered(z, y)
    ensures File(z, 4, 32)
  {
  }

  lemma {:induction false} QuarterColumns(z: seq<Reg>, y: seq<Reg>, storage: seq<seq<Reg>>, src: seq<byte>, groups: nat, row: nat, jj: nat, m: nat)
    requires Quartered(z, y) && m < 8 && |storage| == 4 && forall g :: 0 <= g < 4 ==> Stored(storage[g], src, groups, row + 8 * g, jj)
    requires |y| == 4 && forall g :: 0 <= g < 4 ==> m < |storage[g]| && y[g] == storage[g][m]
    ensures |z| == 4
    ensures ColumnPart(src, groups, row, jj + (0 + 2 * m + 0), z[0], 0, 32)
    ensures ColumnPart(src, groups, row, jj + (0 + 2 * m + 1), z[1], 0, 32)
    ensures ColumnPart(src, groups, row, jj + (16 + 2 * m + 0), z[2], 0, 32)
    ensures ColumnPart(src, groups, row, jj + (16 + 2 * m + 1), z[3], 0, 32)
  {
    hide Quartered, Stored, ColumnPart;
    QuarterFile(z, y);
    QuarterColumn(z, y, storage, src, groups, row, jj, m, 0, 0);
    QuarterColumn(z, y, storage, src, groups, row, jj, m, 0, 1);
    QuarterColumn(z, y, storage, src, groups, row, jj, m, 1, 0);
    QuarterColumn(z, y, storage, src, groups, row, jj, m, 1, 1);
  }

  lemma {:induction false} QuarterColumn(z: seq<Reg>, y: seq<Reg>, storage: seq<seq<Reg>>, src: seq<byte>, groups: nat, row: nat, jj: nat,
                                         m: nat, l: bit, h: bit)
    requires Quartered(z, y) && m < 8 && |storage| == 4 && forall g :: 0 <= g < 4 ==> Stored(storage[g], src, groups, row + 8 * g, jj)
    requires |y| == 4 && forall g :: 0 <= g < 4 ==> m < |storage[g]| && y[g] == storage[g][m]
    ensures |z| == 4 && ColumnPart(src, groups, row, jj + (16 * l + 2 * m + h), z[2 * l + h], 0, 32)
  {
    hide Ix;
    assert |z| == 4;
    var col, out := jj + (16 * l + 2 * m + h), z[2 * l + h];
    forall i: nat | i < 32 ensures ColumnByte(src, groups, row, col, out, 0, i) {
      var g, r := i / 8, i % 8;
      assert QuarterCell(z, y, l, h, g, r);
      assert Stored(storage[g], src, groups, row + 8 * g, jj);
      assert StoredByteOk(storage[g], src, groups, row + 8 * g, jj, l, h, m, r);
      assert row + 8 * g + r == row + i;
    }
  }

  /** bshuf_trans_byte_bitrow_avx2. */
  method TransByteBitrowAvx2(src: seq<byte>, dst: array<byte>, groups: nat, elemSize: nat)
    requires Area(8 * elemSize, groups) <= |src| && Area(8 * elemSize, groups) <= dst.Length
    modifies dst
    ensures Transposed(dst[..], src, 8 * elemSize, groups)
    ensures SameFrom(dst[..], old(dst[..]), Area(8 * elemSize, groups))
  {
    hide CellOk, Area;
    if elemSize % 4 != 0 {
      TransByteBitrowSse2(src, dst, groups, elemSize);
      return;
    }
    var rows := 8 * elemSize;
    var jj := 0;
    while jj + 31 < groups
      invariant jj <= groups && jj % 32 == 0 && RowsOk(dst[..], src, rows, groups, 0, rows, jj)
      invariant SameFrom(dst[..], old(dst[..]), Area(rows, groups))
    {
      BitrowColumns(src, dst, groups, elemSize, jj);
      jj := jj + 32;
    }
    var ready := groups - groups % 32;
    assert jj == ready;
    var ii := 0;
    while ii < rows
      invariant ii <= rows && RowsOk(dst[..], src, rows, groups, 0, rows, ready) && RowsOk(dst[..], src, rows, groups, 0, ii, groups)
      invariant SameFrom(dst[..], old(dst[..]), Area(rows, groups))
    {
      jj := ready;
      while jj < groups
        invariant ready <= jj <= groups
        invariant RowsOk(dst[..], src, rows, groups, 0, rows, ready) && RowsOk(dst[..], src, rows, groups, 0, ii, groups)
        invariant RowsOk(dst[..], src, rows, groups, ii, ii + 1, jj)
        invariant SameFrom(dst[..], old(dst[..]), Area(rows, groups))
      {
        SetCell(src, dst, rows, groups, ii, jj);
        jj := jj + 1;
      }
      ii := ii + 1;
    }
    CellsTransposed(dst[..], src, rows, groups);
  }

  /** Thirty-two columns of all rows. */
  method BitrowColumns(src: seq<byte>, dst: array<byte>, groups: nat, elemSize: nat, jj: nat)
    requires elemSize % 4 == 0 && jj + 32 <= groups
    requires Area(8 * elemSize, groups) <= |src| && Area(8 * elemSize, groups) <= dst.Length
    requires RowsOk(dst[..], src, 8 * elemSize, groups, 0, 8 * elemSize, jj)
    modifies dst
    ensures RowsOk(dst[..], src, 8 * elemSize, groups, 0, 8 * elemSize, jj + 32)
    ensures SameFrom(dst[..], old(dst[..]), Area(8 * elemSize, groups))
  {
    hide CellOk, Area;
    var e := 0;
    while e + 3 < elemSize
      invariant e <= elemSize && e % 4 == 0 && RowsOk(dst[..], src, 8 * elemSize, groups, 0, 8 * elemSize, jj)
      invariant RowsOk(dst[..], src, 8 * elemSize, groups, 0, 8 * e, jj + 32)
      invariant SameFrom(dst[..], old(dst[..]), Area(8 * elemSize, groups))
    {
      SquareOfRows(src, dst, 8 * elemSize, groups, 8 * e, jj);
      e := e + 4;
    }
    assert e == elemSize;
  }

  // ----- bits of eight elements -----

  /** Where the store of a mask goes. */
  lemma {:induction false} ElemAddress(elemSize: nat, g: nat, j: nat, k: nat)
    ensures Ix(g, 8 * j, 8 * elemSize) == Area(g, 8 * elemSize) + 8 * j
    ensures Area(g, 8 * elemSize) + j + Area(k, elemSize) == Ix(8 * g + k, j, elemSize)
  {
    Distributes(8 * g, k, elemSize);
    Associates(8, g, elemSize);
    Associates(g, 8, elemSize);
  }

  /** The store of one mask: byte `j` and those after it of element 8 g + k. */
  method StoreElemMask(ghost src: seq<byte>, dst: array<byte>, ghost groups: nat, ghost elemSize: nat, ghost g: nat, ghost j: nat, ghost k: nat,
                       at: nat, ghost was: Reg, now: Reg, w: nat)
    requires (w == 16 || w == 32) && g < groups && j + w / 8 <= elemSize && k < 8 && Area(8 * groups, elemSize) <= dst.Length
    requires at == Ix(8 * g + k, j, elemSize) && Area(8 * groups, elemSize) <= |src|
    requires Ix(g, 8 * j, 8 * elemSize) + w <= |src| && was == src[Ix(g, 8 * j, 8 * elemSize)..Ix(g, 8 * j, 8 * elemSize) + w]
    requires Risen(now, was, 7 - k)
    modifies dst
    ensures forall c: nat :: j <= c < j + w / 8 ==> ElemOk(dst[..], src, elemSize, g, c, k)
    ensures ElemsKept(dst[..], old(dst[..]), src, elemSize)
    ensures SameFrom(dst[..], old(dst[..]), Area(8 * groups, elemSize))
  {
    hide Area, Ix, Gather, ElemOk, Risen, StoredPart, MoveMask;
    var mask := MoveMask(now);
    for c := 0 to w / 8
      invariant forall c': nat :: j <= c' < j + c ==> ElemOk(dst[..], src, elemSize, g, c', k)
      invariant ElemsKept(dst[..], old(dst[..]), src, elemSize)
      invariant SameFrom(dst[..], old(dst[..]), Area(8 * groups, elemSize))
    {
      RisenSize(now, was, 7 - k);
      RisenGathers(now, was, 7 - k, c);
      EightOfSlice(src, Ix(g, 8 * j, 8 * elemSize), w, 8 * c);
      NextBytes(elemSize, g, j, k, c);
      SetElem(src, dst, groups, elemSize, g, j + c, k, at + c, StoredPart(mask, c));
    }
  }

  lemma {:induction false} NextBytes(elemSize: nat, g: nat, j: nat, k: nat, c: nat)
    ensures Ix(8 * g + k, j + c, elemSize) == Ix(8 * g + k, j, elemSize) + c
    ensures Ix(g, 8 * (j + c), 8 * elemSize) == Ix(g, 8 * j, 8 * elemSize) + 8 * c
  {
  }

  /** One more element has its bytes; the others keep theirs. */
  lemma {:induction false} MasksGrow(now: seq<byte>, was: seq<byte>, src: seq<byte>, elemSize: nat, g: nat, j: nat, n: nat, l: nat)
    requires j + n <= elemSize && l < 8
    requires forall c: nat, k: nat :: j <= c < j + n && l < k < 8 ==> ElemOk(was, src, elemSize, g, c, k)
    requires ElemsKept(now, was, src, elemSize)
    requires forall c: nat :: j <= c < j + n ==> ElemOk(now, src, elemSize, g, c, l)
    ensures forall c: nat, k: nat :: j <= c < j + n && l <= k < 8 ==> ElemOk(now, src, elemSize, g, c, k)
  {
    hide ElemOk;
    forall c: nat, k: nat | j <= c < j + n && l <= k < 8 ensures ElemOk(now, src, elemSize, g, c, k) {
      if k > l {
        assert ElemOk(was, src, elemSize, g, c, k);
      }
    }
  }

  /** Eight masks of one register: `w` / 8 bytes of all eight elements of a group. */
  method StoreElemMasks(src: seq<byte>, dst: array<byte>, groups: nat, elemSize: nat, g: nat, j: nat, w: nat)
    requires (w == 16 || w == 32) && g < groups && j + w / 8 <= elemSize
    requires Area(8 * groups, elemSize) <= |src| && Area(8 * groups, elemSize) <= dst.Length
    modifies dst
    ensures forall c: nat, k: nat :: j <= c < j + w / 8 && k < 8 ==> ElemOk(dst[..], src, elemSize, g, c, k)
    ensures ElemsKept(dst[..], old(dst[..]), src, elemSize)
    ensures SameFrom(dst[..], old(dst[..]), Area(8 * groups, elemSize))
  {
    hide Area, Ix, Gather, ElemOk, Risen;
    var ii, jj := Area(g, 8 * elemSize), 8 * j;
    ElemAddress(elemSize, g, j, 0);
    GroupBounds(groups, elemSize, g, j + w / 8 - 1);
    NextBytes(elemSize, g, j, 0, w / 8 - 1);
    var xmm := src[ii + jj..ii + jj + w];
    ghost var was := xmm;
    NotYetRisen(xmm);
    var kk := 0;
    while kk < 8
      invariant kk <= 8 && Risen(xmm, was, kk)
      invariant forall c: nat, k: nat :: j <= c < j + w / 8 && 8 - kk <= k < 8 ==> ElemOk(dst[..], src, elemSize, g, c, k)
      invariant ElemsKept(dst[..], old(dst[..]), src, elemSize)
      invariant SameFrom(dst[..], old(dst[..]), Area(8 * groups, elemSize))
    {
      var k: nat := 7 - kk;
      ElemAddress(elemSize, g, j, k);
      ghost var before := dst[..];
      StoreElemMask(src, dst, groups, elemSize, g, j, k, ii + jj / 8 + Area(k, elemSize), was, xmm, w);
      ghost var now := dst[..];
      assert forall c: nat :: j <= c < j + w / 8 ==> ElemOk(now, src, elemSize, g, c, k);
      MasksGrow(now, before, src, elemSize, g, j, w / 8, k);
      RisenNext(xmm, was, kk);
      xmm := ShiftWords(xmm);
      kk := kk + 1;
    }
  }

  /** blosc_internal_bshuf_shuffle_bit_eightelem_sse2. */
  method ShuffleBitEightElemSse2(src: seq<byte>, dst: array<byte>, groups: nat, elemSize: nat)
    requires Area(8 * groups, elemSize) <= |src| && Area(8 * groups, elemSize) <= dst.Length
    modifies dst
    ensures ElemsOk(dst[..], src, groups, elemSize)
    ensures SameFrom(dst[..], old(dst[..]), Area(8 * groups, elemSize))
  {
    hide Area, Ix, ElemOk;
    if elemSize % 2 != 0 {
      ShuffleBitEightElem(src, dst, groups, elemSize);
      return;
    }
    var g := 0;
    while g < groups
      invariant g <= groups
      invariant forall g': nat, j': nat, k': nat :: g' < g && j' < elemSize && k' < 8 ==> ElemOk(dst[..], src, elemSize, g', j', k')
      invariant SameFrom(dst[..], old(dst[..]), Area(8 * groups, elemSize))
    {
      var j := 0;
      while 8 * j + 15 < 8 * elemSize
        invariant j <= elemSize && j % 2 == 0
        invariant forall g': nat, j': nat, k': nat :: g' < g && j' < elemSize && k' < 8 ==> ElemOk(dst[..], src, elemSize, g', j', k')
        invariant forall j': nat, k': nat :: j' < j && k' < 8 ==> ElemOk(dst[..], src, elemSize, g, j', k')
        invariant SameFrom(dst[..], old(dst[..]), Area(8 * groups, elemSize))
      {
        StoreElemMasks(src, dst, groups, elemSize, g, j, 16);
        j := j + 2;
      }
      assert j == elemSize;
      g := g + 1;
    }
  }

  /** bshuf_shuffle_bit_eightelem_avx2. */
  method ShuffleBitEightElemAvx2(src: seq<byte>, dst: array<byte>, groups: nat, elemSize: nat)
    requires Area(8 * groups, elemSize) <= |src| && Area(8 * groups, elemSize) <= dst.Length
    modifies dst
    ensures ElemsOk(dst[..], src, groups, elemSize)
    ensures SameFrom(dst[..], old(dst[..]), Area(8 * groups, elemSize))
  {
    hide Area, Ix, ElemOk;
    if elemSize % 4 != 0 {
      ShuffleBitEightElemSse2(src, dst, groups, elemSize);
      return;
    }
    var j := 0;
    while 8 * j + 31 < 8 * elemSize
      invariant j <= elemSize && j % 4 == 0
      invariant forall g': nat, j': nat, k': nat :: g' < groups && j' < j && k' < 8 ==> ElemOk(dst[..], src, elemSize, g', j', k')
      invariant SameFrom(dst[..], old(dst[..]), Area(8 * groups, elemSize))
    {
      var g := 0;
      while g < groups
        invariant g <= groups
        invariant forall g': nat, j': nat, k': nat :: g' < groups && j' < j && k' < 8 ==> ElemOk(dst[..], src, elemSize, g', j', k')
        invariant forall g': nat, j': nat, k': nat :: g' < g && j <= j' < j + 4 && k' < 8 ==> ElemOk(dst[..], src, elemSize, g', j', k')
        invariant SameFrom(dst[..], old(dst[..]), Area(8 * groups, elemSize))
      {
        StoreElemMasks(src, dst, groups, elemSize, g, j, 32);
        g := g + 1;
      }
      j := j + 4;
    }
    assert j == elemSize;
  }

  // ----- the pipelines -----

  /** blosc_internal_bshuf_trans_bit_elem_sse2 (w = 16) and _avx2 (w = 32). */
  method TransBitElemSimd(src: seq<byte>, dst: array<byte>, tmp: array<byte>, size: nat, elemSize: nat, w: nat) returns (count: int)
    requires (w == 16 || w == 32) && dst != tmp
    requires Area(size, elemSize) <= |src| && Area(size, elemSize) <= dst.Length && Area(size, elemSize) <= tmp.Length
    modifies dst, tmp
    ensures count == if size % 8 == 0 then Area(size, elemSize) else -80
    ensures count >= 0 ==> BitShuffled(dst[..], src, size / 8, elemSize)
    ensures SameFrom(dst[..], old(dst[..]), Area(size, elemSize))
  {
    hide Ix, Area, Transposed, PlanesOk, BlockOk, BitShuffled;
    if size % 8 != 0 {
      return -80;
    }
    var groups := size / 8;
    AreaSymmetric(groups, elemSize);
    AreaEight(elemSize, groups);
    count := TransByteElem(src, dst, tmp, size, elemSize);
    ghost var a := dst[..];
    count := TransBitByte(dst[..], tmp, Area(size, elemSize), w);
    ghost var b := tmp[..];
    TransElem(tmp[..], dst, 8, elemSize, groups);
    StagesShuffle(src, a, b, dst[..], groups, elemSize);
    count := Area(size, elemSize);
  }

  /** blosc_internal_bshuf_untrans_bit_elem_sse2 (w = 16) and _avx2 (w = 32). */
  method UntransBitElemSimd(src: seq<byte>, dst: array<byte>, tmp: array<byte>, size: nat, elemSize: nat, w: nat) returns (count: int)
    requires (w == 16 || w == 32) && dst != tmp
    requires Area(size, elemSize) <= |src| && Area(size, elemSize) <= dst.Length && Area(size, elemSize) <= tmp.Length
    modifies dst, tmp
    ensures count == if size % 8 == 0 then Area(size, elemSize) else -80
    ensures count >= 0 ==> BitUnshuffled(dst[..], src, size / 8, elemSize)
    ensures SameFrom(dst[..], old(dst[..]), Area(size, elemSize))
  {
    hide Ix, Area, Transposed, ElemsOk, BitUnshuffled;
    if size % 8 != 0 {
      return -80;
    }
    var groups := size / 8;
    AreaEight(elemSize, groups);
    if w == 16 {
      TransByteBitrowSse2(src, tmp, groups, elemSize);
      ShuffleBitEightElemSse2(tmp[..], dst, groups, elemSize);
    } else {
      TransByteBitrowAvx2(src, tmp, groups, elemSize);
      ShuffleBitEightElemAvx2(tmp[..], dst, groups, elemSize);
    }
    count := Area(size, elemSize);
    StagesUnshuffle(src, tmp[..], dst[..], groups, elemSize);
  }

  /** The bitshuffled bytes are determined, so every host computes the same ones. */
  lemma {:induction false} BitShuffledUnique(a: seq<byte>, b: seq<byte>, input: seq<byte>, groups: nat, elemSize: nat)
    requires BitShuffled(a, input, groups, elemSize) && BitShuffled(b, input, groups, elemSize)
    requires Area(8 * groups, elemSize) <= |a| && Area(8 * groups, elemSize) <= |b|
    ensures forall i :: 0 <= i < Area(8 * groups, elemSize) ==> a[i] == b[i]
  {
    hide Ix, Area, Gather;
    AreaEight(elemSize, groups);
    forall i | 0 <= i < Area(8 * groups, elemSize) ensures a[i] == b[i] {
      var row, g := IxOnto(i, 8 * elemSize, groups);
      var j, k := row / 8, row % 8;
      RowIndices(elemSize, groups, g, j, k);
      assert row == 8 * j + k;
      assert BitCell(a, input, groups, elemSize, g, j, k) && BitCell(b, input, groups, elemSize, g, j, k);
    }
  }

  lemma {:induction false} BitUnshuffledUnique(a: seq<byte>, b: seq<byte>, input: seq<byte>, groups: nat, elemSize: nat)
    requires BitUnshuffled(a, input, groups, elemSize) && BitUnshuffled(b, input, groups, elemSize)
    requires Area(8 * groups, elemSize) <= |a| && Area(8 * groups, elemSize) <= |b|
    ensures forall i :: 0 <= i < Area(8 * groups, elemSize) ==> a[i] == b[i]
  {
    hide Ix, Area, Gather;
    forall i | 0 <= i < Area(8 * groups, elemSize) ensures a[i] == b[i] {
      var e, j := IxOnto(i, 8 * groups, elemSize);
      var g, k := e / 8, e % 8;
      assert e == 8 * g + k;
      assert BackCell(a, input, groups, elemSize, g, j, k) && BackCell(b, input, groups, elemSize, g, j, k);
    }
  }
}
