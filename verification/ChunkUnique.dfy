// What is encoded at a place of a chunk is determined: filters lose nothing, and no bytes encode two blocks.

module ChunkUnique {
  import opened Bytes
  import opened Chunk
  import Bitshuffle
  import BitMatrix
  import Grids
  import Shuffle

  // ----- filters -----

  /** Two blocks with the same shuffled form are the same. */
  lemma {:induction false} ShuffledOnce(out: seq<byte>, a: seq<byte>, b: seq<byte>, typeSize: nat)
    requires typeSize > 0 && Shuffle.Shuffled(out, a, typeSize) && Shuffle.Shuffled(out, b, typeSize)
    ensures a == b
  {
    hide Grids.Area, Grids.Ix;
    var q := |out| / typeSize;
    Grids.AreaSymmetric(q, typeSize);
    forall k | 0 <= k < |out|
      ensures a[k] == b[k]
    {
      if k < Grids.Area(q, typeSize) {
        var r, c := Grids.IxOnto(k, q, typeSize);
        assert out[Grids.Ix(c, r, q)] == a[Grids.Ix(r, c, typeSize)];
      }
    }
  }

  /** Two blocks with the same bitshuffled form are the same. */
  lemma {:induction false} BitshuffledOnce(out: seq<byte>, a: seq<byte>, b: seq<byte>, typeSize: nat)
    requires typeSize > 0 && Bitshuffle.Bitshuffled(out, a, typeSize) && Bitshuffle.Bitshuffled(out, b, typeSize)
    ensures a == b
  {
    hide Grids.Area, Grids.Ix, Bitshuffle.BitShuffled;
    var size := |out| / typeSize;
    if size % 8 == 0 {
      forall i | 0 <= i < |out|
        ensures a[i] == b[i]
      {
        if i < Grids.Area(size, typeSize) {
          var e, j := Grids.IxOnto(i, size, typeSize);
          assert 8 * (e / 8) + e % 8 == e && 8 * (size / 8) == size;
          ElementOnce(out, a, b, size / 8, typeSize, e / 8, j, e % 8);
        }
      }
    }
  }

  lemma {:induction false} ElementOnce(out: seq<byte>, a: seq<byte>, b: seq<byte>, groups: nat, elemSize: nat, g: nat, j: nat, k: nat)
    requires g < groups && j < elemSize && k < 8
    requires Bitshuffle.BitShuffled(out, a, groups, elemSize) && Bitshuffle.BitShuffled(out, b, groups, elemSize)
    requires Grids.Ix(8 * g + k, j, elemSize) < |a| == |b|
    ensures a[Grids.Ix(8 * g + k, j, elemSize)] == b[Grids.Ix(8 * g + k, j, elemSize)]
  {
    hide Grids.Ix, Grids.Area, BitMatrix.Gather;
    var s, t := Bitshuffle.Eight(a, g, j, elemSize), Bitshuffle.Eight(b, g, j, elemSize);
    var rows := seq(8, r requires 0 <= r < 8 => BitMatrix.Gather(s, r));
    forall r: nat | r < 8
      ensures rows[r] == BitMatrix.Gather(s, r) == BitMatrix.Gather(t, r)
    {
      assert Bitshuffle.BitCell(out, a, groups, elemSize, g, j, r) && Bitshuffle.BitCell(out, b, groups, elemSize, g, j, r);
    }
    BitMatrix.GatherTwice(s, rows, k);
    BitMatrix.GatherTwice(t, rows, k);
  }

  lemma {:induction false} FilteredOnce(f: Filter, typeSize: nat, data: seq<byte>, a: seq<byte>, b: seq<byte>)
    requires typeSize > 0 && |a| == |b| && Filtered(f, typeSize, data, a) && Filtered(f, typeSize, data, b)
    ensures a == b
  {
    hide Shuffle.Shuffled, Bitshuffle.Bitshuffled;
    match EffectiveFilter(f, typeSize, |a|) {
      case NoFilter =>
      case ByteShuffle => ShuffledOnce(data, a, b, typeSize);
      case BitShuffle => BitshuffledOnce(data, a, b, typeSize);
    }
  }

  // ----- splits -----

  /** A split decodes to one string of its length. */
  lemma {:induction false} SplitOnce(libs: Libraries, format: nat, z: seq<byte>, s: seq<byte>, t: seq<byte>)
    requires |s| == |t| && SplitOk(libs, format, z, s) && SplitOk(libs, format, z, t)
    ensures s == t
  {
  }

  /** Splits read from the same place on are the same splits of the same data. */
  lemma {:induction false} SplitsOnce(libs: Libraries, format: nat, a: seq<byte>, b: seq<byte>, s: seq<byte>, t: seq<byte>, ne: nat, k: nat)
    requires (a <= b || b <= a) && SplitsOk(libs, format, a, s, ne, k) && SplitsOk(libs, format, b, t, ne, k)
    ensures s == t && a == b
    decreases k
  {
    hide SplitOk, Le32;
    if k > 0 {
      if a <= b {
        FirstOnce(libs, format, a, b, s, t, ne, k);
      } else {
        FirstOnce(libs, format, b, a, t, s, ne, k);
      }
      var c := Le32(a);
      SplitsOnce(libs, format, a[4 + c..], b[4 + c..], s[ne..], t[ne..], ne, k - 1);
      assert s == s[..ne] + s[ne..] && t == t[..ne] + t[ne..];
      assert a == a[..4 + c] + a[4 + c..] && b == b[..4 + c] + b[4 + c..];
    }
  }

  lemma {:induction false} FirstOnce(libs: Libraries, format: nat, a: seq<byte>, b: seq<byte>, s: seq<byte>, t: seq<byte>, ne: nat, k: nat)
    requires a <= b && k > 0 && SplitsOk(libs, format, a, s, ne, k) && SplitsOk(libs, format, b, t, ne, k)
    ensures |a| >= 4 && 4 + Le32(a) <= |a| && Le32(a) == Le32(b)
    ensures ne <= |s| && ne <= |t| && s[..ne] == t[..ne]
    ensures a[..4 + Le32(a)] == b[..4 + Le32(b)] && a[4 + Le32(a)..] <= b[4 + Le32(b)..]
  {
    hide SplitOk, Le32;
    assert b == a + b[|a|..];
    Le32Prefix(a, b[|a|..]);
    var c := Le32(a);
    assert a[4..4 + c] == b[4..4 + c];
    SplitOnce(libs, format, a[4..4 + c], s[..ne], t[..ne]);
  }

  // ----- blocks -----

  lemma {:induction false} BlockOnce(libs: Libraries, l: Layout, chunk: seq<byte>, start: nat, m: nat, n: nat, a: seq<byte>, b: seq<byte>, leftover: bool)
    requires |a| == |b| && BlockIn(libs, l, chunk, start, m, a, leftover) && BlockIn(libs, l, chunk, start, n, b, leftover)
    ensures a == b
  {
    hide SplitsOk, Filtered;
    var k := Splits(l, |a|, leftover);
    var x, y := chunk[start..start + m], chunk[start..start + n];
    var s :| |s| == |a| && Filtered(l.filter, l.typeSize, s, a) && SplitsOk(libs, l.format, x, s, |a| / k, k);
    var t :| |t| == |b| && Filtered(l.filter, l.typeSize, t, b) && SplitsOk(libs, l.format, y, t, |b| / k, k);
    assert if m <= n then x == y[..m] else y == x[..n];
    SplitsOnce(libs, l.format, x, y, s, t, |a| / k, k);
    FilteredOnce(l.filter, l.typeSize, s, a, b);
  }

  /** Block `j` is the same in all buffers of a size for which a chunk holds it. */
  lemma {:induction false} HeldOnce(libs: Libraries, l: Layout, chunk: seq<byte>, a: seq<byte>, b: seq<byte>, j: nat)
    requires |a| == |b| && l.blockSize > 0 && j < BlockCount(|a|, l.blockSize) && 16 + 4 * BlockCount(|a|, l.blockSize) <= |chunk|
    requires HoldsBlock(libs, l, chunk, a, j) && HoldsBlock(libs, l, chunk, b, j)
    ensures Block(a, l.blockSize, j) == Block(b, l.blockSize, j)
  {
    hide BlockIn, Block, BlockCount, IsLeftover, Start, BlockSize;
    var left := IsLeftover(|a|, l.blockSize, j);
    var m: nat :| BlockIn(libs, l, chunk, Start(chunk, j), m, Block(a, l.blockSize, j), left);
    var n: nat :| BlockIn(libs, l, chunk, Start(chunk, j), n, Block(b, l.blockSize, j), left);
    BlockOnce(libs, l, chunk, Start(chunk, j), m, n, Block(a, l.blockSize, j), Block(b, l.blockSize, j), left);
  }
}
