// Row-major grids of bytes and the byte shuffle of blosc/shuffle-generic.h: a transpose of
// elements and their bytes, with the bytes behind the last whole element left alone.

module Grids {
  import opened Bytes

  /** Where row `r`, column `c` of a grid with `w` columns lies. */
  function Ix(r: nat, c: nat, w: nat): nat {
    r * w + c
  }

  function Area(h: nat, w: nat): nat {
    h * w
  }

  lemma {:induction false} IxBound(r: nat, c: nat, h: nat, w: nat)
    requires r < h && c < w
    ensures Ix(r, c, w) < Area(h, w)
  {
    RowsBelow(r, h, w);
  }

  lemma {:induction false} RowsBelow(r: nat, h: nat, w: nat)
    requires r < h
    ensures r * w + w <= h * w
  {
    Distributes(h - r - 1, r + 1, w);
    Distributes(r, 1, w);
    assert (h - r - 1) + (r + 1) == h;
    assert (h - r - 1) * w >= 0;
  }

  lemma {:induction false} Distributes(a: nat, b: nat, w: nat)
    ensures (a + b) * w == a * w + b * w
  {
  }

  /** Different cells lie at different places. */
  lemma {:induction false} IxUnique(r0: nat, c0: nat, w: nat)
    requires c0 < w
    ensures forall r: nat, c: nat :: c < w && Ix(r, c, w) == Ix(r0, c0, w) ==> r == r0 && c == c0
  {
    forall r: nat, c: nat | c < w && Ix(r, c, w) == Ix(r0, c0, w)
      ensures r == r0 && c == c0
    {
      if r < r0 {
        RowsBelow(r, r0, w);
      } else if r0 < r {
        RowsBelow(r0, r, w);
      }
    }
  }

  /** Every place is a cell. */
  lemma {:induction false} IxOnto(k: nat, h: nat, w: nat) returns (r: nat, c: nat)
    requires k < Area(h, w)
    ensures r < h && c < w && k == Ix(r, c, w)
    decreases h
  {
    if h == 0 {
      assert false;
    } else {
      Distributes(h - 1, 1, w);
      if k < Area(h - 1, w) {
        r, c := IxOnto(k, h - 1, w);
      } else {
        r, c := h - 1, k - Area(h - 1, w);
      }
    }
  }

  /** `out` holds the transpose of the `h` by `w` grid at the start of `input`. */
  ghost predicate Transposed(out: seq<byte>, input: seq<byte>, h: nat, w: nat) {
    && Area(h, w) <= |input| && Area(h, w) <= |out|
    && forall r: nat, c: nat :: r < h && c < w ==>
      Ix(r, c, w) < |input| && Ix(c, r, h) < |out| && out[Ix(c, r, h)] == input[Ix(r, c, w)]
  }

  lemma {:induction false} AreaSymmetric(h: nat, w: nat)
    ensures Area(h, w) == Area(w, h)
  {
  }

  /** Transposing the transpose gives the grid back. */
  lemma {:induction false} TransposedTwice(back: seq<byte>, out: seq<byte>, input: seq<byte>, h: nat, w: nat)
    requires Transposed(out, input, h, w) && Transposed(back, out, w, h)
    ensures Area(h, w) <= |back| && Area(h, w) <= |input| && forall k :: 0 <= k < Area(h, w) ==> back[k] == input[k]
  {
    hide Ix, Area;
    AreaSymmetric(h, w);
    forall k | 0 <= k < Area(h, w)
      ensures back[k] == input[k]
    {
      var r, c := IxOnto(k, h, w);
      assert back[Ix(r, c, w)] == out[Ix(c, r, h)];
    }
  }

  /** The cell in row `r`, column `c` has been transposed. */
  ghost predicate CellOk(out: seq<byte>, input: seq<byte>, h: nat, w: nat, r: nat, c: nat) {
    Ix(r, c, w) < |input| && Ix(c, r, h) < |out| && out[Ix(c, r, h)] == input[Ix(r, c, w)]
  }

  /** Cells that were right are right. */
  ghost predicate CellsStay(now: seq<byte>, was: seq<byte>, input: seq<byte>, h: nat, w: nat) {
    forall r: nat, c: nat :: r < h && c < w && CellOk(was, input, h, w, r, c) ==> CellOk(now, input, h, w, r, c)
  }

  /** One element-copying assignment; cells already right stay right. */
  method SetCell(src: seq<byte>, dst: array<byte>, h: nat, w: nat, r: nat, c: nat)
    requires r < h && c < w && Area(h, w) <= |src| && Area(h, w) <= dst.Length
    modifies dst
    ensures CellOk(dst[..], src, h, w, r, c)
    ensures CellsStay(dst[..], old(dst[..]), src, h, w)
    ensures forall k :: Area(h, w) <= k < dst.Length ==> dst[k] == old(dst[k])
  {
    hide Ix, Area;
    AreaSymmetric(h, w);
    IxBound(r, c, h, w);
    IxBound(c, r, w, h);
    IxUnique(c, r, h);
    dst[Ix(c, r, h)] := src[Ix(r, c, w)];
  }

  /** All cells done: a transpose. */
  lemma {:induction false} CellsTransposed(out: seq<byte>, input: seq<byte>, h: nat, w: nat)
    requires Area(h, w) <= |input| && Area(h, w) <= |out|
    requires forall r: nat, c: nat :: r < h && c < w ==> CellOk(out, input, h, w, r, c)
    ensures Transposed(out, input, h, w)
  {
    hide Ix, Area;
    forall r: nat, c: nat | r < h && c < w
      ensures Ix(r, c, w) < |input| && Ix(c, r, h) < |out| && out[Ix(c, r, h)] == input[Ix(r, c, w)]
    {
      assert CellOk(out, input, h, w, r, c);
    }
  }
}

module Shuffle {
  import opened Bytes
  import opened Stores
  import opened Grids

  /** The shuffled block: whole elements transposed, the rest copied. */
  ghost predicate Shuffled(out: seq<byte>, input: seq<byte>, typeSize: nat)
    requires typeSize > 0
  {
    && |out| == |input|
    && Transposed(out, input, |input| / typeSize, typeSize)
    && forall k :: Area(|input| / typeSize, typeSize) <= k < |input| ==> out[k] == input[k]
  }

  /** The unshuffled block. */
  ghost predicate Unshuffled(out: seq<byte>, input: seq<byte>, typeSize: nat)
    requires typeSize > 0
  {
    && |out| == |input|
    && Transposed(out, input, typeSize, |input| / typeSize)
    && forall k :: Area(|input| / typeSize, typeSize) <= k < |input| ==> out[k] == input[k]
  }

  /** Unshuffling undoes shuffling, byte for byte, for every type size and block size. */
  lemma {:induction false} UnshuffleShuffle(block: seq<byte>, shuffled: seq<byte>, back: seq<byte>, typeSize: nat)
    requires typeSize > 0 && Shuffled(shuffled, block, typeSize) && Unshuffled(back, shuffled, typeSize)
    ensures back == block
  {
    hide Transposed, Area, Ix;
    var q := |block| / typeSize;
    TransposedTwice(back, shuffled, block, q, typeSize);
    assert forall k :: 0 <= k < |block| ==> back[k] == block[k];
  }

  /** Whole elements never reach beyond the block; the bytes left over are copied. */
  lemma {:induction false} WholeElements(n: nat, typeSize: nat)
    requires typeSize > 0
    ensures Area(n / typeSize, typeSize) + n % typeSize == n
  {
  }

  /** The cells from row `rlo` and column `clo` on are in place, in columns before `cols`. */
  ghost predicate ColumnsDone(out: seq<byte>, input: seq<byte>, h: nat, w: nat, rlo: nat, clo: nat, cols: nat) {
    forall r: nat, c: nat :: rlo <= r < h && clo <= c < cols && c < w ==>
      Ix(r, c, w) < |input| && Ix(c, r, h) < |out| && out[Ix(c, r, h)] == input[Ix(r, c, w)]
  }

  /** The cells of earlier rows or columns were not touched. */
  ghost predicate CellsKept(now: seq<byte>, was: seq<byte>, h: nat, w: nat, rlo: nat, clo: nat) {
    && |now| == |was|
    && forall r: nat, c: nat :: (r < rlo || c < clo) && r < h && c < w ==> Ix(c, r, h) < |now| && now[Ix(c, r, h)] == was[Ix(c, r, h)]
  }

  lemma {:induction false} KeptAtFirst(s: seq<byte>, h: nat, w: nat, rlo: nat, clo: nat)
    requires Area(h, w) <= |s|
    ensures CellsKept(s, s, h, w, rlo, clo)
  {
    hide Ix, Area;
    AreaSymmetric(h, w);
    forall r: nat, c: nat | (r < rlo || c < clo) && r < h && c < w
      ensures Ix(c, r, h) < |s|
    {
      IxBound(c, r, w, h);
    }
  }

  /** One column of the transpose, from row `rlo` on. */
  method TransposeColumn(src: seq<byte>, dst: array<byte>, h: nat, w: nat, rlo: nat, ghost clo: nat, c: nat)
    requires clo <= c < w && rlo <= h && Area(h, w) <= |src| && Area(h, w) <= dst.Length
    requires ColumnsDone(dst[..], src, h, w, rlo, clo, c)
    modifies dst
    ensures ColumnsDone(dst[..], src, h, w, rlo, clo, c + 1) && CellsKept(dst[..], old(dst[..]), h, w, rlo, clo)
    ensures SameFrom(dst[..], old(dst[..]), Area(h, w))
  {
    hide Ix, Area;
    var r := rlo;
    AreaSymmetric(h, w);
    KeptAtFirst(dst[..], h, w, rlo, clo);
    while r < h
      invariant rlo <= r <= h && ColumnsDone(dst[..], src, h, w, rlo, clo, c)
      invariant forall r': nat :: rlo <= r' < r ==> Ix(r', c, w) < |src| && Ix(c, r', h) < dst.Length && dst[Ix(c, r', h)] == src[Ix(r', c, w)]
      invariant CellsKept(dst[..], old(dst[..]), h, w, rlo, clo) && SameFrom(dst[..], old(dst[..]), Area(h, w))
    {
      IxBound(r, c, h, w);
      IxBound(c, r, w, h);
      IxUnique(c, r, h);
      dst[Ix(c, r, h)] := src[Ix(r, c, w)];
      r := r + 1;
    }
  }

  /** The nested element-copying loops: the cells from row `rlo` and column `clo` on. */
  method TransposeFrom(src: seq<byte>, dst: array<byte>, h: nat, w: nat, rlo: nat, clo: nat)
    requires rlo <= h && clo <= w && Area(h, w) <= |src| && Area(h, w) <= dst.Length
    modifies dst
    ensures ColumnsDone(dst[..], src, h, w, rlo, clo, w) && CellsKept(dst[..], old(dst[..]), h, w, rlo, clo)
    ensures SameFrom(dst[..], old(dst[..]), Area(h, w))
  {
    hide Ix, Area;
    KeptAtFirst(dst[..], h, w, rlo, clo);
    var c := clo;
    while c < w
      invariant clo <= c <= w && ColumnsDone(dst[..], src, h, w, rlo, clo, c)
      invariant CellsKept(dst[..], old(dst[..]), h, w, rlo, clo) && SameFrom(dst[..], old(dst[..]), Area(h, w))
    {
      TransposeColumn(src, dst, h, w, rlo, clo, c);
      c := c + 1;
    }
  }

  /** What a vectorized part has already done: the cells of the first rows or columns. */
  ghost predicate CellsReady(out: seq<byte>, input: seq<byte>, h: nat, w: nat, rlo: nat, clo: nat) {
    forall r: nat, c: nat :: (r < rlo || c < clo) && r < h && c < w ==>
      Ix(r, c, w) < |input| && Ix(c, r, h) < |out| && out[Ix(c, r, h)] == input[Ix(r, c, w)]
  }

  lemma {:induction false} AllCells(out: seq<byte>, before: seq<byte>, input: seq<byte>, h: nat, w: nat, rlo: nat, clo: nat)
    requires Area(h, w) <= |input| && Area(h, w) <= |out|
    requires CellsReady(before, input, h, w, rlo, clo) && CellsKept(out, before, h, w, rlo, clo)
    requires ColumnsDone(out, input, h, w, rlo, clo, w)
    ensures Transposed(out, input, h, w)
  {
    hide Ix, Area;
  }

  /** Copies the bytes behind the grid and completes the transpose. */
  method TransposeRest(src: seq<byte>, dst: array<byte>, h: nat, w: nat, rlo: nat, clo: nat)
    requires rlo <= h && clo <= w && Area(h, w) <= |src| <= dst.Length
    requires CellsReady(dst[..], src, h, w, rlo, clo)
    modifies dst
    ensures Transposed(dst[..|src|], src, h, w) && SameFrom(dst[..], old(dst[..]), |src|)
    ensures forall k :: Area(h, w) <= k < |src| ==> dst[k] == src[k]
  {
    hide Ix, Area, Transposed;
    ghost var before := dst[..];
    TransposeFrom(src, dst, h, w, rlo, clo);
    AllCells(dst[..], before, src, h, w, rlo, clo);
    ghost var grid := dst[..];
    forall k | Area(h, w) <= k < |src| {
      dst[k] := src[k];
    }
    TransposedWithin(dst[..|src|], grid, src, h, w);
  }

  lemma {:induction false} TransposedWithin(now: seq<byte>, was: seq<byte>, input: seq<byte>, h: nat, w: nat)
    requires Transposed(was, input, h, w) && Area(h, w) <= |now|
    requires |now| <= |was| && forall k :: 0 <= k < Area(h, w) ==> now[k] == was[k]
    ensures Transposed(now, input, h, w)
  {
    hide Ix, Area;
    AreaSymmetric(h, w);
    forall r: nat, c: nat | r < h && c < w
      ensures Ix(r, c, w) < |input| && Ix(c, r, h) < |now| && now[Ix(c, r, h)] == input[Ix(r, c, w)]
    {
      IxBound(c, r, w, h);
    }
  }

  /** shuffle_generic_inline; the first `ready` elements have been shuffled already. */
  method ShuffleRest(typeSize: nat, ready: nat, src: seq<byte>, dst: array<byte>)
    requires typeSize > 0 && |src| <= dst.Length && ready <= |src| / typeSize
    requires CellsReady(dst[..], src, |src| / typeSize, typeSize, ready, 0)
    modifies dst
    ensures Shuffled(dst[..|src|], src, typeSize) && SameFrom(dst[..], old(dst[..]), |src|)
  {
    WholeElements(|src|, typeSize);
    TransposeRest(src, dst, |src| / typeSize, typeSize, ready, 0);
  }

  /** unshuffle_generic_inline; the first `ready` elements have been restored already. */
  method UnshuffleRest(typeSize: nat, ready: nat, src: seq<byte>, dst: array<byte>)
    requires typeSize > 0 && |src| <= dst.Length && ready <= |src| / typeSize
    requires CellsReady(dst[..], src, typeSize, |src| / typeSize, 0, ready)
    modifies dst
    ensures Unshuffled(dst[..|src|], src, typeSize) && SameFrom(dst[..], old(dst[..]), |src|)
  {
    WholeElements(|src|, typeSize);
    AreaSymmetric(|src| / typeSize, typeSize);
    TransposeRest(src, dst, typeSize, |src| / typeSize, 0, ready);
  }

  /** blosc_internal_shuffle_generic. */
  method ShuffleGeneric(typeSize: nat, src: seq<byte>, dst: array<byte>)
    requires typeSize > 0 && |src| <= dst.Length
    modifies dst
    ensures Shuffled(dst[..|src|], src, typeSize) && SameFrom(dst[..], old(dst[..]), |src|)
  {
    ShuffleRest(typeSize, 0, src, dst);
  }

  /** blosc_internal_unshuffle_generic. */
  method UnshuffleGeneric(typeSize: nat, src: seq<byte>, dst: array<byte>)
    requires typeSize > 0 && |src| <= dst.Length
    modifies dst
    ensures Unshuffled(dst[..|src|], src, typeSize) && SameFrom(dst[..], old(dst[..]), |src|)
  {
    UnshuffleRest(typeSize, 0, src, dst);
  }
}
