// The vectorized byte shuffles of blosc/shuffle-sse2.c and blosc/shuffle-avx2.c: groups of 16 or 32 elements
// through the networks, tiles for long elements, and the generic routine for the rest.

module ShuffleVector {
  import opened Bytes
  import opened Stores
  import opened Grids
  import opened Shuffle
  import opened Registers
  import opened Networks
  import opened ShuffleKernels

  // ----- loading and storing a group -----

  /** `mm` holds bytes `off` to `off + size` of the `w` elements from `j` on, one element after the other. */
  ghost predicate Loaded(mm: seq<Reg>, src: seq<byte>, typeSize: nat, off: nat, j: nat, size: nat, w: nat) {
    && File(mm, size, w) && Sizes(size, w)
    && forall e, b :: 0 <= e < w && 0 <= b < size ==> LoadedAt(mm, src, typeSize, off, j, size, w, e, b)
  }

  ghost predicate LoadedAt(mm: seq<Reg>, src: seq<byte>, typeSize: nat, off: nat, j: nat, size: nat, w: nat, e: nat, b: nat)
    requires w > 0
  {
    var i := e * size + b;
    && Quot(i, w) < |mm| && Rem(i, w) < |mm[Quot(i, w)]| && Ix(j + e, off + b, typeSize) < |src|
    && mm[Quot(i, w)][Rem(i, w)] == src[Ix(j + e, off + b, typeSize)]
  }

  /** Register `b` holds byte `off + b` of the `w` elements from `j` on. */
  ghost predicate Columns(y: seq<Reg>, src: seq<byte>, typeSize: nat, off: nat, j: nat, size: nat, w: nat) {
    && File(y, size, w)
    && forall b, e :: 0 <= b < size && 0 <= e < w ==> ColumnAt(y, src, typeSize, off, j, b, e)
  }

  ghost predicate ColumnAt(y: seq<Reg>, src: seq<byte>, typeSize: nat, off: nat, j: nat, b: nat, e: nat) {
    b < |y| && e < |y[b]| && Ix(j + e, off + b, typeSize) < |src| && y[b][e] == src[Ix(j + e, off + b, typeSize)]
  }

  lemma {:induction false} TurnedColumns(y: seq<Reg>, x: seq<Reg>, src: seq<byte>, typeSize: nat, off: nat, j: nat, size: nat, w: nat)
    requires Turned(y, x, size, w) && Loaded(x, src, typeSize, off, j, size, w)
    ensures Columns(y, src, typeSize, off, j, size, w)
  {
    hide Ix, Quot, Rem;
    forall b, e | 0 <= b < size && 0 <= e < w ensures ColumnAt(y, src, typeSize, off, j, b, e) {
      assert Cell(y, x, size, w, b, e);
      assert LoadedAt(x, src, typeSize, off, j, size, w, e, b);
    }
  }

  /** Consecutive registers from consecutive bytes: whole elements of 2, 4, 8 or 16 bytes. */
  method LoadFlat(src: seq<byte>, size: nat, j: nat, w: nat, h: nat) returns (mm: array<Reg>)
    requires Sizes(size, w) && j + w <= h && Area(h, size) <= |src|
    ensures fresh(mm) && Loaded(mm[..], src, size, 0, j, size, w)
  {
    RowsInside(j, w, h, size);
    var at := j * size;
    SameProduct(size, w);
    mm := new Reg[size](k requires 0 <= k < size && at + Area(size, w) <= |src| => Slice(src, at, k, size, w));
    forall e, b | 0 <= e < w && 0 <= b < size ensures LoadedAt(mm[..], src, size, 0, j, size, w, e, b) {
      FlatPlace(mm[..], src, j, size, w, e, b);
    }
  }

  lemma {:induction false} FlatBound(size: nat, w: nat, e: nat, b: nat)
    requires Sizes(size, w) && e < w && b < size
    ensures var i := e * size + b;
      Quot(i, w) < size && Rem(i, w) < w && i == Quot(i, w) * w + Rem(i, w) && i < Area(size, w)
  {
    hide Quot, Rem;
    PartsBack(e * size + b, w);
    if w == 16 {
      if size == 2 {
      } else if size == 4 {
      } else if size == 8 {
      } else {
      }
    } else {
      if size == 2 {
      } else if size == 4 {
      } else if size == 8 {
      } else {
      }
    }
  }

  lemma {:induction false} FlatPlace(mm: seq<Reg>, src: seq<byte>, j: nat, size: nat, w: nat, e: nat, b: nat)
    requires Sizes(size, w) && e < w && b < size && j * size + Area(size, w) <= |src|
    requires |mm| == size && forall k :: 0 <= k < size ==> mm[k] == Slice(src, j * size, k, size, w)
    ensures LoadedAt(mm, src, size, 0, j, size, w, e, b)
  {
    hide Quot, Rem, Area;
    FlatBound(size, w, e, b);
    var i := e * size + b;
    Distributes(j, e, size);
    var k := Quot(i, w);
    RowsInArea(k, size, w);
    assert mm[k][Rem(i, w)] == src[j * size + k * w..j * size + k * w + w][Rem(i, w)] == src[j * size + i];
  }

  lemma {:induction false} RowsInArea(k: nat, n: nat, w: nat)
    requires k < n
    ensures k * w + w <= Area(n, w)
  {
    RowsBelow(k, n, w);
  }

  function Slice(src: seq<byte>, at: nat, k: nat, n: nat, w: nat): (r: Reg)
    requires k < n && at + Area(n, w) <= |src|
    ensures |r| == w
  {
    RowsBelow(k, n, w);
    src[at + k * w..at + k * w + w]
  }

  lemma {:induction false} RowsInside(j: nat, n: nat, h: nat, size: nat)
    requires j + n <= h
    ensures j * size + n * size <= Area(h, size)
  {
    Distributes(j, n, size);
    Distributes(j + n, h - (j + n), size);
  }

  lemma {:induction false} SameProduct(a: nat, b: nat)
    ensures Area(a, b) == Area(b, a)
  {
  }

  /** Sixteen bytes of element `r` from byte `off` on. */
  function Row(src: seq<byte>, typeSize: nat, off: nat, r: nat, h: nat): (s: Reg)
    requires r < h && off + 16 <= typeSize && Area(h, typeSize) <= |src|
    ensures |s| == 16 && forall c: nat :: off <= c < off + 16 ==> Ix(r, c, typeSize) < |src| && s[c - off] == src[Ix(r, c, typeSize)]
  {
    RowInArea(r, off, h, typeSize);
    src[r * typeSize + off..r * typeSize + off + 16]
  }

  lemma {:induction false} RowInArea(r: nat, off: nat, h: nat, typeSize: nat)
    requires r < h && off + 16 <= typeSize
    ensures r * typeSize + off + 16 <= Area(h, typeSize)
  {
    RowsBelow(r, h, typeSize);
  }

  /** One row to a register, or two for registers of two lanes. */
  function Tile(src: seq<byte>, typeSize: nat, off: nat, j: nat, k: nat, w: nat, h: nat): (s: Reg)
    requires (w == 16 || w == 32) && k < 16 && j + w <= h && off + 16 <= typeSize && Area(h, typeSize) <= |src|
    ensures |s| == w
  {
    if w == 16 then Row(src, typeSize, off, j + k, h)
    else Row(src, typeSize, off, j + 2 * k, h) + Row(src, typeSize, off, j + 2 * k + 1, h)
  }

  lemma {:induction false} TilePlace(mm: seq<Reg>, src: seq<byte>, typeSize: nat, off: nat, j: nat, w: nat, h: nat, e: nat, b: nat)
    requires (w == 16 || w == 32) && j + w <= h && off + 16 <= typeSize && Area(h, typeSize) <= |src| && e < w && b < 16
    requires |mm| == 16 && forall k :: 0 <= k < 16 ==> mm[k] == Tile(src, typeSize, off, j, k, w, h)
    ensures LoadedAt(mm, src, typeSize, off, j, 16, w, e, b)
  {
    hide Quot, Rem, Area, Ix, Row;
    if w == 16 {
      Parts(e * 16 + b, e, b, 16);
      assert Row(src, typeSize, off, j + e, h)[b] == src[Ix(j + e, off + b, typeSize)];
    } else {
      PartsBack(e, 2);
      var k, u := Quot(e, 2), Rem(e, 2);
      Parts(e * 16 + b, k, 16 * u + b, 32);
      assert j + e == j + 2 * k + u;
      assert Row(src, typeSize, off, j + e, h)[b] == src[Ix(j + e, off + b, typeSize)];
      assert mm[k][16 * u + b] == Row(src, typeSize, off, j + e, h)[b];
    }
  }

  /** The tiled loads: 16 bytes of each element, from byte `off` on. */
  method LoadTiles(src: seq<byte>, typeSize: nat, off: nat, j: nat, w: nat, h: nat) returns (mm: array<Reg>)
    requires (w == 16 || w == 32) && j + w <= h && off + 16 <= typeSize && Area(h, typeSize) <= |src|
    ensures fresh(mm) && Loaded(mm[..], src, typeSize, off, j, 16, w)
  {
    hide Area, Ix, LoadedAt;
    mm := new Reg[16](k requires 0 <= k < 16 && (w == 16 || w == 32) && j + w <= h && off + 16 <= typeSize && Area(h, typeSize) <= |src|
      => Tile(src, typeSize, off, j, k, w, h));
    forall e, b | 0 <= e < w && 0 <= b < 16 ensures LoadedAt(mm[..], src, typeSize, off, j, 16, w, e, b) {
      TilePlace(mm[..], src, typeSize, off, j, w, h, e, b);
    }
  }

  /** One byte of a register to its place; cells already right stay right. */
  method PutCell(ghost src: seq<byte>, dst: array<byte>, h: nat, w: nat, r: nat, c: nat, v: byte)
    requires r < h && c < w && Area(h, w) <= |src| && Area(h, w) <= dst.Length
    requires Ix(r, c, w) < |src| && v == src[Ix(r, c, w)]
    modifies dst
    ensures CellOk(dst[..], src, h, w, r, c)
    ensures CellsStay(dst[..], old(dst[..]), src, h, w)
    ensures SameFrom(dst[..], old(dst[..]), Area(h, w))
  {
    hide Ix, Area;
    AreaSymmetric(h, w);
    IxBound(c, r, w, h);
    IxUnique(c, r, h);
    dst[Ix(c, r, h)] := v;
  }

  /** A group's registers to the rows of the shuffled block: cells of elements `j` on and bytes `off` on. */
  method StoreColumns(ghost src: seq<byte>, dst: array<byte>, h: nat, typeSize: nat, off: nat, j: nat, y: array<Reg>, size: nat, w: nat)
    requires j + w <= h && off + size <= typeSize && Area(h, typeSize) <= |src| && Area(h, typeSize) <= dst.Length
    requires Columns(y[..], src, typeSize, off, j, size, w) && y as object != dst
    modifies dst
    ensures forall r: nat, c: nat :: j <= r < j + w && off <= c < off + size ==> CellOk(dst[..], src, h, typeSize, r, c)
    ensures CellsStay(dst[..], old(dst[..]), src, h, typeSize)
    ensures SameFrom(dst[..], old(dst[..]), Area(h, typeSize))
  {
    hide Ix, Area, CellOk;
    ghost var z := y[..];
    for k := 0 to size
      invariant y[..] == z
      invariant forall r: nat, c: nat :: j <= r < j + w && off <= c < off + k ==> CellOk(dst[..], src, h, typeSize, r, c)
      invariant CellsStay(dst[..], old(dst[..]), src, h, typeSize)
      invariant SameFrom(dst[..], old(dst[..]), Area(h, typeSize))
    {
      for i := 0 to w
        invariant y[..] == z
        invariant forall r: nat, c: nat :: j <= r < j + w && off <= c < off + k ==> CellOk(dst[..], src, h, typeSize, r, c)
        invariant forall r: nat, c: nat :: j <= r < j + i && c == off + k ==> CellOk(dst[..], src, h, typeSize, r, c)
        invariant CellsStay(dst[..], old(dst[..]), src, h, typeSize)
        invariant SameFrom(dst[..], old(dst[..]), Area(h, typeSize))
      {
        assert ColumnAt(z, src, typeSize, off, j, k, i);
        PutCell(src, dst, h, typeSize, j + i, off + k, y[k][i]);
      }
    }
  }

  method SpareFile(n: nat, w: nat) returns (mm: array<Reg>)
    ensures fresh(mm) && File(mm[..], n, w)
  {
    mm := new Reg[n](_ => seq(w, _ => 0));
  }

  /** One group through the network for its element size, with registers of one lane (SSE2) or two (AVX2). */
  method TurnGroup(mm0: array<Reg>, size: nat, w: nat) returns (y: array<Reg>)
    requires File(mm0[..], size, w) && Sizes(size, w)
    modifies mm0
    ensures Turned(y[..], old(mm0[..]), size, w) && (y == mm0 || fresh(y))
  {
    hide Turned, LaneTurned;
    var mm1 := SpareFile(size, w);
    ghost var x := mm0[..];
    if size == 16 {
      Lanes16(mm0, mm1, w);
      y := mm0;
      if w == 16 {
        OneLane(y[..], x, 16);
      } else {
        Widen16(y, x);
      }
    } else if size == 8 {
      Lanes8(mm0, mm1, w);
      y := mm0;
      if w == 16 {
        OneLane(y[..], x, 8);
      } else {
        Widen8(y, mm1, x);
      }
    } else if size == 4 {
      Lanes4(mm0, mm1, w);
      y := mm0;
      if w == 16 {
        OneLane(y[..], x, 4);
      } else {
        Widen4(y, x);
      }
    } else if w == 16 {
      Lanes2(mm0, mm1);
      y := mm1;
      OneLane(y[..], x, 2);
    } else {
      Deal2(mm0, mm1);
      y := mm1;
    }
  }

  // ----- the loops -----

  /** The cells of elements before `j`, and of bytes before `off` of the `w` elements from `j` on. */
  ghost predicate CellsTo(out: seq<byte>, src: seq<byte>, h: nat, typeSize: nat, j: nat, off: nat, w: nat) {
    forall r: nat, c: nat :: r < h && c < typeSize && (r < j || (r < j + w && c < off)) ==> CellOk(out, src, h, typeSize, r, c)
  }

  /** shuffle2 to shuffle16: whole elements at a time. */
  method ShuffleWhole(src: seq<byte>, dst: array<byte>, h: nat, size: nat, w: nat, ready: nat, ghost n: nat)
    requires Sizes(size, w) && ready <= h && Area(h, size) <= |src| && Area(h, size) <= dst.Length && ready == n * w
    modifies dst
    ensures CellsTo(dst[..], src, h, size, ready, 0, 0) && SameFrom(dst[..], old(dst[..]), Area(h, size))
  {
    hide Area, CellOk, Loaded, Columns, Turned;
    var j := 0;
    ghost var i := 0;
    while j < ready
      invariant 0 <= i <= n && j == i * w
      invariant CellsTo(dst[..], src, h, size, j, 0, 0) && SameFrom(dst[..], old(dst[..]), Area(h, size))
      decreases n - i
    {
      GroupFits(i, n, w);
      var mm := LoadFlat(src, size, j, w, h);
      LoadedFile(mm[..], src, size, 0, j, size, w);
      ghost var x := mm[..];
      var y := TurnGroup(mm, size, w);
      TurnedColumns(y[..], x, src, size, 0, j, size, w);
      StoreColumns(src, dst, h, size, 0, j, y, size, w);
      j, i := j + w, i + 1;
    }
    GroupsDone(i, n, w);
  }

  lemma {:induction false} LoadedFile(mm: seq<Reg>, src: seq<byte>, typeSize: nat, off: nat, j: nat, size: nat, w: nat)
    requires Loaded(mm, src, typeSize, off, j, size, w)
    ensures File(mm, size, w) && Sizes(size, w)
  {
  }

  lemma {:induction false} GroupFits(i: nat, n: nat, w: nat)
    requires i <= n && i * w < n * w
    ensures i < n && i * w + w == (i + 1) * w <= n * w
  {
    if i < n {
      RowsBelow(i, n, w);
    }
  }

  lemma {:induction false} GroupsDone(i: nat, n: nat, w: nat)
    requires i <= n && i * w >= n * w && w > 0
    ensures i * w == n * w
  {
    if i < n {
      RowsBelow(i, n, w);
    }
  }

  /** The next tile: the second starts early enough that the last ends with the element. */
  function NextOffset(off: nat, rem: nat): nat {
    off + if off == 0 && rem > 0 then rem else 16
  }

  /** `m` tiles of 16 bytes are left from byte `off` on. */
  predicate TilesLeft(typeSize: nat, off: nat, m: nat) {
    if off == 0 then typeSize == typeSize % 16 + 16 * m - (if typeSize % 16 > 0 then 16 else 0)
    else typeSize == off + 16 * m
  }

  lemma {:induction false} FirstTile(typeSize: nat) returns (m: nat)
    requires typeSize > 16
    ensures TilesLeft(typeSize, 0, m)
  {
    m := typeSize / 16 + if typeSize % 16 > 0 then 1 else 0;
  }

  lemma {:induction false} TileFits(typeSize: nat, off: nat, m: nat)
    requires typeSize > 16 && off < typeSize && TilesLeft(typeSize, off, m)
    ensures m > 0 && off + 16 <= typeSize && TilesLeft(typeSize, NextOffset(off, typeSize % 16), m - 1)
    ensures NextOffset(off, typeSize % 16) <= off + 16 && NextOffset(off, typeSize % 16) <= typeSize
  {
  }

  /** shuffle16_tiled: 16 bytes of each element at a time; the first two tiles may overlap. */
  method ShuffleTiled(src: seq<byte>, dst: array<byte>, h: nat, typeSize: nat, w: nat, ready: nat, ghost n: nat)
    requires typeSize > 16 && (w == 16 || w == 32) && ready <= h && ready == n * w
    requires Area(h, typeSize) <= |src| && Area(h, typeSize) <= dst.Length
    modifies dst
    ensures CellsTo(dst[..], src, h, typeSize, ready, 0, 0) && SameFrom(dst[..], old(dst[..]), Area(h, typeSize))
  {
    hide Area, CellOk, Loaded, Columns, Turned, TilesLeft, NextOffset;
    var j := 0;
    ghost var i := 0;
    while j < ready
      invariant 0 <= i <= n && j == i * w
      invariant CellsTo(dst[..], src, h, typeSize, j, 0, 0) && SameFrom(dst[..], old(dst[..]), Area(h, typeSize))
      decreases n - i
    {
      GroupFits(i, n, w);
      ShuffleTiles(src, dst, h, typeSize, w, j);
      j, i := j + w, i + 1;
    }
    GroupsDone(i, n, w);
  }

  /** The tiles of one group of elements. */
  method ShuffleTiles(src: seq<byte>, dst: array<byte>, h: nat, typeSize: nat, w: nat, j: nat)
    requires typeSize > 16 && (w == 16 || w == 32) && j + w <= h
    requires Area(h, typeSize) <= |src| && Area(h, typeSize) <= dst.Length
    requires CellsTo(dst[..], src, h, typeSize, j, 0, 0)
    modifies dst
    ensures CellsTo(dst[..], src, h, typeSize, j + w, 0, 0) && SameFrom(dst[..], old(dst[..]), Area(h, typeSize))
  {
    hide Area, CellOk, Loaded, Columns, Turned, TilesLeft, NextOffset;
    var off := 0;
    ghost var m := FirstTile(typeSize);
    while off < typeSize
      invariant 0 <= off <= typeSize && TilesLeft(typeSize, off, m)
      invariant CellsTo(dst[..], src, h, typeSize, j, off, w) && SameFrom(dst[..], old(dst[..]), Area(h, typeSize))
      decreases m
    {
      TileFits(typeSize, off, m);
      var mm := LoadTiles(src, typeSize, off, j, w, h);
      LoadedFile(mm[..], src, typeSize, off, j, 16, w);
      ghost var x := mm[..];
      var y := TurnGroup(mm, 16, w);
      TurnedColumns(y[..], x, src, typeSize, off, j, 16, w);
      StoreColumns(src, dst, h, typeSize, off, j, y, 16, w);
      off, m := NextOffset(off, typeSize % 16), m - 1;
    }
  }

  // ----- blosc_internal_shuffle_sse2 and blosc_internal_shuffle_avx2 -----

  /** The part of a block that is whole groups of `w` elements. */
  lemma {:induction false} VectorPart(n: nat, typeSize: nat, w: nat) returns (groups: nat)
    requires typeSize > 0 && w > 0
    ensures typeSize * w > 0
    ensures var v := n - n % (typeSize * w);
      v / typeSize == groups * w && v == groups * w * typeSize && groups * w <= n / typeSize
    ensures n % (typeSize * w) == 0 ==> n == groups * w * typeSize && n / typeSize == groups * w
  {
    assert typeSize * w > 0;
    var c := typeSize * w;
    groups := n / c;
    var v := n - n % c;
    assert v == groups * c;
    Regrouped(groups, typeSize, w);
    WholeQuotient(groups * w, typeSize);
    QuotientGrows(v, n, typeSize);
  }

  lemma {:induction false} Regrouped(a: nat, b: nat, c: nat)
    ensures a * (b * c) == a * c * b
  {
  }

  lemma {:induction false} WholeQuotient(a: nat, b: nat)
    requires b > 0
    ensures (a * b) / b == a
  {
    var q := (a * b) / b;
    assert a * b == q * b + (a * b) % b;
    if q < a {
      RowsBelow(q, a, b);
    } else if a < q {
      RowsBelow(a, q, b);
    }
  }

  lemma {:induction false} QuotientGrows(a: nat, b: nat, c: nat)
    requires a <= b && c > 0
    ensures a / c <= b / c
  {
    var p, q := a / c, b / c;
    assert a == p * c + a % c && b == q * c + b % c;
    if q < p {
      RowsBelow(q, p, c);
    }
  }

  /** Vectors for the sizes that have a network, tiles for longer elements. */
  method ShuffleGroups(src: seq<byte>, dst: array<byte>, h: nat, typeSize: nat, w: nat, ready: nat, ghost n: nat)
    requires (typeSize == 2 || typeSize == 4 || typeSize == 8 || typeSize == 16 || typeSize > 16) && (w == 16 || w == 32)
    requires ready <= h && ready == n * w && Area(h, typeSize) <= |src| && Area(h, typeSize) <= dst.Length
    modifies dst
    ensures CellsReady(dst[..], src, h, typeSize, ready, 0) && SameFrom(dst[..], old(dst[..]), Area(h, typeSize))
  {
    hide Area, CellOk;
    if typeSize > 16 {
      ShuffleTiled(src, dst, h, typeSize, w, ready, n);
    } else {
      ShuffleWhole(src, dst, h, typeSize, w, ready, n);
    }
    CellsToReady(dst[..], src, h, typeSize, ready);
  }

  lemma {:induction false} CellsToReady(out: seq<byte>, src: seq<byte>, h: nat, typeSize: nat, ready: nat)
    requires CellsTo(out, src, h, typeSize, ready, 0, 0)
    ensures CellsReady(out, src, h, typeSize, ready, 0)
  {
    hide Ix;
    forall r: nat, c: nat | (r < ready || c < 0) && r < h && c < typeSize
      ensures Ix(r, c, typeSize) < |src| && Ix(c, r, h) < |out| && out[Ix(c, r, h)] == src[Ix(r, c, typeSize)]
    {
      assert CellOk(out, src, h, typeSize, r, c);
    }
  }

  /** A block of whole groups is shuffled when all its cells are. */
  lemma {:induction false} AllGroups(out: seq<byte>, src: seq<byte>, typeSize: nat, h: nat)
    requires typeSize > 0 && |out| == |src| == h * typeSize && |src| / typeSize == h
    requires CellsReady(out, src, h, typeSize, h, 0)
    ensures Shuffled(out, src, typeSize)
  {
    hide Ix;
  }

  /**
   * blosc_internal_shuffle_sse2 (registers of 16 bytes) and blosc_internal_shuffle_avx2 (32): for every element
   * size and block size the generic shuffle.
   */
  method ShuffleSimd(typeSize: nat, src: seq<byte>, dst: array<byte>, w: nat)
    requires typeSize > 0 && |src| <= dst.Length && (w == 16 || w == 32)
    modifies dst
    ensures Shuffled(dst[..|src|], src, typeSize) && SameFrom(dst[..], old(dst[..]), |src|)
  {
    hide Shuffled, CellsReady;
    ghost var groups := VectorPart(|src|, typeSize, w);
    if |src| < typeSize * w
      || !(typeSize == 2 || typeSize == 4 || typeSize == 8 || typeSize == 16 || typeSize > 16)
    {
      ShuffleGeneric(typeSize, src, dst);
      return;
    }
    var vectorizable := |src| - |src| % (typeSize * w);
    var ready, total := vectorizable / typeSize, |src| / typeSize;
    WholeElements(|src|, typeSize);
    ShuffleGroups(src, dst, total, typeSize, w, ready, groups);
    if vectorizable < |src| {
      ShuffleRest(typeSize, ready, src, dst);
    } else {
      ReadyWithin(dst[..], src, total, typeSize, ready);
      AllGroups(dst[..|src|], src, typeSize, total);
    }
  }

  lemma {:induction false} ReadyWithin(out: seq<byte>, src: seq<byte>, h: nat, typeSize: nat, ready: nat)
    requires CellsReady(out, src, h, typeSize, ready, 0) && Area(h, typeSize) <= |src| <= |out|
    ensures CellsReady(out[..|src|], src, h, typeSize, ready, 0)
  {
    hide Ix, Area;
    AreaSymmetric(h, typeSize);
    var o := out[..|src|];
    forall r: nat, c: nat | (r < ready || c < 0) && r < h && c < typeSize
      ensures Ix(r, c, typeSize) < |src| && Ix(c, r, h) < |o| && o[Ix(c, r, h)] == src[Ix(r, c, typeSize)]
    {
      IxBound(c, r, typeSize, h);
    }
  }

  // ----- unshuffle: the block's rows are the elements' bytes, `total` to a row -----

  ghost predicate RowsLoaded(mm: seq<Reg>, src: seq<byte>, total: nat, off: nat, j: nat, size: nat, w: nat) {
    && File(mm, size, w)
    && forall b, e :: 0 <= b < size && 0 <= e < w ==> RowAt(mm, src, total, off, j, b, e)
  }

  ghost predicate RowAt(mm: seq<Reg>, src: seq<byte>, total: nat, off: nat, j: nat, b: nat, e: nat) {
    b < |mm| && e < |mm[b]| && Ix(off + b, j + e, total) < |src| && mm[b][e] == src[Ix(off + b, j + e, total)]
  }

  function RowPart(src: seq<byte>, total: nat, b: nat, j: nat, w: nat, typeSize: nat): (r: Reg)
    requires b < typeSize && j + w <= total && Area(typeSize, total) <= |src|
    ensures |r| == w && forall c: nat :: j <= c < j + w ==> Ix(b, c, total) < |src| && r[c - j] == src[Ix(b, c, total)]
  {
    RowsBelow(b, typeSize, total);
    src[b * total + j..b * total + j + w]
  }

  /** Register `k` from row `off + k` of the shuffled block. */
  method LoadRows(src: seq<byte>, total: nat, typeSize: nat, off: nat, j: nat, size: nat, w: nat) returns (mm: array<Reg>)
    requires off + size <= typeSize && j + w <= total && Area(typeSize, total) <= |src|
    ensures fresh(mm) && RowsLoaded(mm[..], src, total, off, j, size, w)
  {
    hide Area, Ix;
    mm := new Reg[size](k requires 0 <= k < size && off + size <= typeSize && j + w <= total && Area(typeSize, total) <= |src|
      => RowPart(src, total, off + k, j, w, typeSize));
    assert forall k :: 0 <= k < size ==> mm[k] == RowPart(src, total, off + k, j, w, typeSize);
    forall b, e | 0 <= b < size && 0 <= e < w ensures RowAt(mm[..], src, total, off, j, b, e) {
      var row := RowPart(src, total, off + b, j, w, typeSize);
      assert mm[b] == row;
      var c := j + e;
      assert row[c - j] == src[Ix(off + b, c, total)];
    }
  }

  /** The registers of `z`, one after the other, are the elements from `j` on, from byte `off` on. */
  ghost predicate Elements(z: seq<Reg>, src: seq<byte>, total: nat, off: nat, j: nat, size: nat, w: nat) {
    && File(z, size, w) && Sizes(size, w)
    && forall e, b :: 0 <= e < w && 0 <= b < size ==> ElementAt(z, src, total, off, j, size, w, e, b)
  }

  ghost predicate ElementAt(z: seq<Reg>, src: seq<byte>, total: nat, off: nat, j: nat, size: nat, w: nat, e: nat, b: nat)
    requires w > 0
  {
    var i := e * size + b;
    && Quot(i, w) < |z| && Rem(i, w) < |z[Quot(i, w)]| && Ix(off + b, j + e, total) < |src|
    && z[Quot(i, w)][Rem(i, w)] == src[Ix(off + b, j + e, total)]
  }

  lemma {:induction false} TurnedElements(x: seq<Reg>, z: seq<Reg>, src: seq<byte>, total: nat, off: nat, j: nat, size: nat, w: nat)
    requires Turned(x, z, size, w) && RowsLoaded(x, src, total, off, j, size, w)
    ensures Elements(z, src, total, off, j, size, w)
  {
    hide Ix, Quot, Rem;
    forall e, b | 0 <= e < w && 0 <= b < size ensures ElementAt(z, src, total, off, j, size, w, e, b) {
      assert Cell(x, z, size, w, b, e);
      assert RowAt(x, src, total, off, j, b, e);
    }
  }

  /** The network for the element size; the registers are returned in the order in which they are stored. */
  method UnturnGroup(mm0: array<Reg>, size: nat, w: nat) returns (z: seq<Reg>)
    requires File(mm0[..], size, w) && Sizes(size, w)
    modifies mm0
    ensures Turned(old(mm0[..]), z, size, w)
  {
    hide Turned;
    var mm1 := SpareFile(size, w);
    if size == 16 {
      if w == 16 {
        Unturn16(mm0, mm1);
        z := Ordered(mm0[..], ORDER16);
      } else {
        UnturnWide16(mm0, mm1);
        z := Ordered(mm1[..], WIDE16);
      }
    } else if size == 8 {
      if w == 16 {
        Unturn8(mm0, mm1);
        z := Ordered(mm1[..], ORDER8);
      } else {
        UnturnWide8(mm0, mm1);
        z := Ordered(mm1[..], WIDE8);
      }
    } else if size == 4 {
      if w == 16 {
        Unturn4(mm0, mm1);
        z := Ordered(mm0[..], ORDER4);
      } else {
        UnturnWide4(mm0, mm1);
        z := mm1[..];
      }
    } else if w == 16 {
      Unturn2(mm0, mm1);
      z := mm1[..];
    } else {
      UnturnWide2(mm0, mm1);
      z := mm1[..];
    }
  }

  /** The stores: byte `off + b` of element `j + e`, for every byte and element of the group. */
  method StoreElements(ghost src: seq<byte>, dst: array<byte>, total: nat, typeSize: nat, off: nat, j: nat, z: seq<Reg>, size: nat, w: nat)
    requires j + w <= total && off + size <= typeSize && Area(typeSize, total) <= |src| && Area(typeSize, total) <= dst.Length
    requires Elements(z, src, total, off, j, size, w)
    modifies dst
    ensures forall r: nat, c: nat :: off <= r < off + size && j <= c < j + w ==> CellOk(dst[..], src, typeSize, total, r, c)
    ensures CellsStay(dst[..], old(dst[..]), src, typeSize, total)
    ensures SameFrom(dst[..], old(dst[..]), Area(typeSize, total))
  {
    hide Ix, Area, CellOk, Quot, Rem;
    for e := 0 to w
      invariant forall r: nat, c: nat :: off <= r < off + size && j <= c < j + e ==> CellOk(dst[..], src, typeSize, total, r, c)
      invariant CellsStay(dst[..], old(dst[..]), src, typeSize, total)
      invariant SameFrom(dst[..], old(dst[..]), Area(typeSize, total))
    {
      for b := 0 to size
        invariant forall r: nat, c: nat :: off <= r < off + size && j <= c < j + e ==> CellOk(dst[..], src, typeSize, total, r, c)
        invariant forall r: nat, c: nat :: off <= r < off + b && c == j + e ==> CellOk(dst[..], src, typeSize, total, r, c)
        invariant CellsStay(dst[..], old(dst[..]), src, typeSize, total)
        invariant SameFrom(dst[..], old(dst[..]), Area(typeSize, total))
      {
        assert ElementAt(z, src, total, off, j, size, w, e, b);
        var i := e * size + b;
        PutCell(src, dst, typeSize, total, off + b, j + e, z[Quot(i, w)][Rem(i, w)]);
      }
    }
  }

  /** Rows before `off` of the first `ready` elements, and `size` rows from `off` on of the first `j`. */
  ghost predicate RowsTo(out: seq<byte>, src: seq<byte>, total: nat, typeSize: nat, off: nat, ready: nat, size: nat, j: nat) {
    forall r: nat, c: nat :: r < typeSize && c < total && ((r < off && c < ready) || (off <= r < off + size && c < j)) ==>
      CellOk(out, src, typeSize, total, r, c)
  }

  /** One band of rows, over all groups of elements: all of them for short elements, a tile for long ones. */
  method UnshuffleBand(src: seq<byte>, dst: array<byte>, total: nat, typeSize: nat, off: nat, size: nat, w: nat, ready: nat, ghost n: nat)
    requires Sizes(size, w) && off + size <= typeSize && ready <= total && ready == n * w
    requires Area(typeSize, total) <= |src| && Area(typeSize, total) <= dst.Length
    requires RowsTo(dst[..], src, total, typeSize, off, ready, 0, 0)
    modifies dst
    ensures RowsTo(dst[..], src, total, typeSize, off + size, ready, 0, 0)
    ensures SameFrom(dst[..], old(dst[..]), Area(typeSize, total))
  {
    hide Area, CellOk, RowsLoaded, Elements, Turned;
    var j := 0;
    ghost var i := 0;
    while j < ready
      invariant 0 <= i <= n && j == i * w
      invariant RowsTo(dst[..], src, total, typeSize, off, ready, size, j)
      invariant SameFrom(dst[..], old(dst[..]), Area(typeSize, total))
      decreases n - i
    {
      GroupFits(i, n, w);
      var mm := LoadRows(src, total, typeSize, off, j, size, w);
      RowsFile(mm[..], src, total, off, j, size, w);
      ghost var x := mm[..];
      var z := UnturnGroup(mm, size, w);
      TurnedElements(x, z, src, total, off, j, size, w);
      StoreElements(src, dst, total, typeSize, off, j, z, size, w);
      j, i := j + w, i + 1;
    }
    GroupsDone(i, n, w);
  }

  lemma {:induction false} RowsFile(mm: seq<Reg>, src: seq<byte>, total: nat, off: nat, j: nat, size: nat, w: nat)
    requires RowsLoaded(mm, src, total, off, j, size, w)
    ensures File(mm, size, w)
  {
  }

  /** unshuffle16_tiled: the tiles are the outer loop. */
  method UnshuffleTiled(src: seq<byte>, dst: array<byte>, total: nat, typeSize: nat, w: nat, ready: nat, ghost n: nat)
    requires typeSize > 16 && (w == 16 || w == 32) && ready <= total && ready == n * w
    requires Area(typeSize, total) <= |src| && Area(typeSize, total) <= dst.Length
    modifies dst
    ensures RowsTo(dst[..], src, total, typeSize, typeSize, ready, 0, 0)
    ensures SameFrom(dst[..], old(dst[..]), Area(typeSize, total))
  {
    hide Area, CellOk, TilesLeft, NextOffset;
    var off := 0;
    ghost var m := FirstTile(typeSize);
    while off < typeSize
      invariant 0 <= off <= typeSize && TilesLeft(typeSize, off, m)
      invariant RowsTo(dst[..], src, total, typeSize, off, ready, 0, 0)
      invariant SameFrom(dst[..], old(dst[..]), Area(typeSize, total))
      decreases m
    {
      TileFits(typeSize, off, m);
      UnshuffleBand(src, dst, total, typeSize, off, 16, w, ready, n);
      off, m := NextOffset(off, typeSize % 16), m - 1;
    }
  }

  lemma {:induction false} RowsToReady(out: seq<byte>, src: seq<byte>, total: nat, typeSize: nat, ready: nat)
    requires RowsTo(out, src, total, typeSize, typeSize, ready, 0, 0)
    ensures CellsReady(out, src, typeSize, total, 0, ready)
  {
    hide Ix;
    forall r: nat, c: nat | (r < 0 || c < ready) && r < typeSize && c < total
      ensures Ix(r, c, total) < |src| && Ix(c, r, typeSize) < |out| && out[Ix(c, r, typeSize)] == src[Ix(r, c, total)]
    {
      assert CellOk(out, src, typeSize, total, r, c);
    }
  }

  lemma {:induction false} AllRestored(out: seq<byte>, src: seq<byte>, typeSize: nat, total: nat)
    requires typeSize > 0 && |out| == |src| == total * typeSize && |src| / typeSize == total
    requires CellsReady(out, src, typeSize, total, 0, total)
    ensures Unshuffled(out, src, typeSize)
  {
    hide Ix;
    AreaSymmetric(typeSize, total);
  }

  lemma {:induction false} RestoredWithin(out: seq<byte>, src: seq<byte>, total: nat, typeSize: nat, ready: nat)
    requires CellsReady(out, src, typeSize, total, 0, ready) && Area(typeSize, total) <= |src| <= |out|
    ensures CellsReady(out[..|src|], src, typeSize, total, 0, ready)
  {
    hide Ix, Area;
    AreaSymmetric(typeSize, total);
    var o := out[..|src|];
    forall r: nat, c: nat | (r < 0 || c < ready) && r < typeSize && c < total
      ensures Ix(r, c, total) < |src| && Ix(c, r, typeSize) < |o| && o[Ix(c, r, typeSize)] == src[Ix(r, c, total)]
    {
      IxBound(c, r, total, typeSize);
    }
  }

  /** blosc_internal_unshuffle_sse2 and blosc_internal_unshuffle_avx2: the generic unshuffle. */
  method UnshuffleSimd(typeSize: nat, src: seq<byte>, dst: array<byte>, w: nat)
    requires typeSize > 0 && |src| <= dst.Length && (w == 16 || w == 32)
    modifies dst
    ensures Unshuffled(dst[..|src|], src, typeSize) && SameFrom(dst[..], old(dst[..]), |src|)
  {
    hide Unshuffled, CellsReady, RowsTo;
    ghost var groups := VectorPart(|src|, typeSize, w);
    if |src| < typeSize * w
      || !(typeSize == 2 || typeSize == 4 || typeSize == 8 || typeSize == 16 || typeSize > 16)
    {
      UnshuffleGeneric(typeSize, src, dst);
      return;
    }
    var vectorizable := |src| - |src| % (typeSize * w);
    var ready, total := vectorizable / typeSize, |src| / typeSize;
    WholeElements(|src|, typeSize);
    AreaSymmetric(typeSize, total);
    if typeSize > 16 {
      UnshuffleTiled(src, dst, total, typeSize, w, ready, groups);
    } else {
      NoRows(dst[..], src, total, typeSize, ready);
      UnshuffleBand(src, dst, total, typeSize, 0, typeSize, w, ready, groups);
    }
    RowsToReady(dst[..], src, total, typeSize, ready);
    if vectorizable < |src| {
      UnshuffleRest(typeSize, ready, src, dst);
    } else {
      RestoredWithin(dst[..], src, total, typeSize, ready);
      AllRestored(dst[..|src|], src, typeSize, total);
    }
  }

  lemma {:induction false} NoRows(out: seq<byte>, src: seq<byte>, total: nat, typeSize: nat, ready: nat)
    ensures RowsTo(out, src, total, typeSize, 0, ready, 0, 0)
  {
  }

  // ----- the vectorized filters are the generic ones -----

  /** The shuffled block is determined: every implementation writes the same bytes. */
  lemma {:induction false} ShuffledUnique(a: seq<byte>, b: seq<byte>, input: seq<byte>, typeSize: nat)
    requires typeSize > 0 && Shuffled(a, input, typeSize) && Shuffled(b, input, typeSize)
    ensures a == b
  {
    hide Area, Ix;
    var h := |input| / typeSize;
    AreaSymmetric(h, typeSize);
    forall k | 0 <= k < |input| ensures a[k] == b[k] {
      if k < Area(typeSize, h) {
        var c, r := IxOnto(k, typeSize, h);
        assert a[Ix(c, r, h)] == input[Ix(r, c, typeSize)] == b[Ix(c, r, h)];
      }
    }
  }

  /** So is the unshuffled one. */
  lemma {:induction false} UnshuffledUnique(a: seq<byte>, b: seq<byte>, input: seq<byte>, typeSize: nat)
    requires typeSize > 0 && Unshuffled(a, input, typeSize) && Unshuffled(b, input, typeSize)
    ensures a == b
  {
    hide Area, Ix;
    var h := |input| / typeSize;
    AreaSymmetric(h, typeSize);
    forall k | 0 <= k < |input| ensures a[k] == b[k] {
      if k < Area(h, typeSize) {
        var r, c := IxOnto(k, h, typeSize);
        assert a[Ix(r, c, typeSize)] == input[Ix(c, r, h)] == b[Ix(r, c, typeSize)];
      }
    }
  }
}
