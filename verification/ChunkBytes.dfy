// The chunk in bytes and numbers: what each header byte and flag says, where every byte or bit of a block goes,
// how blocks are divided; and that this is what a chunk holding a buffer amounts to, no more and no less.

module ChunkBytes {
  import opened Bytes
  import opened Stores
  import opened Grids
  import opened Words
  import opened Lz4Format
  import opened Chunk
  import BitMatrix
  import Bitshuffle
  import BloscLzFormat
  import ChunkReader
  import ChunkWriter
  import Shuffle

  // ----- where the bytes of a block go -----

  /** Byte `j` of element `i` is found `j` rows down. */
  ghost predicate BytesApart(data: seq<byte>, block: seq<byte>, typeSize: nat, q: nat) {
    forall i: nat, j: nat :: i < q && j < typeSize ==> ByteApart(data, block, typeSize, q, i, j)
  }

  ghost predicate ByteApart(data: seq<byte>, block: seq<byte>, typeSize: nat, q: nat, i: nat, j: nat) {
    var from, to := i * typeSize + j, j * q + i;
    from < |block| && to < |data| && data[to] == block[from]
  }

  /** Bit `b` of byte `j` of element `e` is found as bit e % 8 of byte e / 8 in row 8 j + b. */
  ghost predicate BitsApart(data: seq<byte>, block: seq<byte>, typeSize: nat, groups: nat) {
    forall e: nat, j: nat, b: nat :: e < 8 * groups && j < typeSize && b < 8 ==> BitApart(data, block, typeSize, groups, e, j, b)
  }

  ghost predicate BitApart(data: seq<byte>, block: seq<byte>, typeSize: nat, groups: nat, e: nat, j: nat, b: nat) {
    var from, to := e * typeSize + j, (8 * j + b) * groups + e / 8;
    from < |block| && to < |data| && Digit(data[to], e % 8) == Digit(block[from], b)
  }

  ghost predicate SameBehind(data: seq<byte>, block: seq<byte>, at: nat) {
    |data| == |block| && forall k :: at <= k < |block| ==> data[k] == block[k]
  }

  /** What is compressed for a block of elements of `typeSize` bytes: bit 0 of the flags takes the bytes of the
      elements apart, if there are several, and otherwise bit 2 their bits. */
  ghost predicate TakenApart(flags: byte, typeSize: nat, data: seq<byte>, block: seq<byte>)
    requires typeSize > 0
  {
    var q := |block| / typeSize;
    if flags % 2 == 1 && typeSize >= 2 then BytesApart(data, block, typeSize, q) && SameBehind(data, block, q * typeSize)
    else if flags / 4 % 2 == 1 && |block| >= typeSize && q % 8 == 0 then
      BitsApart(data, block, typeSize, q / 8) && SameBehind(data, block, q * typeSize)
    else data == block
  }

  lemma {:induction false} Cell(data: seq<byte>, block: seq<byte>, typeSize: nat, q: nat, i: nat, j: nat)
    ensures ByteApart(data, block, typeSize, q, i, j) <==> CellOk(data, block, q, typeSize, i, j)
  {
  }

  lemma {:induction false} TransposedApart(data: seq<byte>, block: seq<byte>, typeSize: nat, q: nat)
    requires Area(q, typeSize) <= |block| == |data|
    ensures Transposed(data, block, q, typeSize) <==> BytesApart(data, block, typeSize, q)
  {
    hide Ix, Area, ByteApart;
    forall i: nat, j: nat | i < q && j < typeSize
      ensures ByteApart(data, block, typeSize, q, i, j) <==> CellOk(data, block, q, typeSize, i, j)
    {
      Cell(data, block, typeSize, q, i, j);
    }
    if BytesApart(data, block, typeSize, q) {
      CellsTransposed(data, block, q, typeSize);
    }
    if Transposed(data, block, q, typeSize) {
      forall i: nat, j: nat | i < q && j < typeSize
        ensures ByteApart(data, block, typeSize, q, i, j)
      {
        assert CellOk(data, block, q, typeSize, i, j);
      }
    }
  }

  lemma {:induction false} ShuffledApart(data: seq<byte>, block: seq<byte>, typeSize: nat)
    requires typeSize > 0 && |data| == |block|
    ensures var q := |block| / typeSize;
      Shuffle.Shuffled(data, block, typeSize) <==> BytesApart(data, block, typeSize, q) && SameBehind(data, block, q * typeSize)
  {
    hide BytesApart, Transposed;
    var q := |block| / typeSize;
    Shuffle.WholeElements(|block|, typeSize);
    assert Area(q, typeSize) == q * typeSize;
    TransposedApart(data, block, typeSize, q);
  }

  lemma {:induction false} BitsLand(data: seq<byte>, block: seq<byte>, typeSize: nat, groups: nat)
    requires Bitshuffle.BitShuffled(data, block, groups, typeSize)
    ensures BitsApart(data, block, typeSize, groups)
  {
    hide Bitshuffle.BitShuffled, Digit;
    forall e: nat, j: nat, b: nat | e < 8 * groups && j < typeSize && b < 8
      ensures BitApart(data, block, typeSize, groups, e, j, b)
    {
      Bitshuffle.BitLands(data, block, groups, typeSize, e, j, b);
      assert Ix(e, j, typeSize) == e * typeSize + j && Ix(8 * j + b, e / 8, groups) == (8 * j + b) * groups + e / 8;
    }
  }

  lemma {:induction false} LandedBits(data: seq<byte>, block: seq<byte>, typeSize: nat, groups: nat)
    requires BitsApart(data, block, typeSize, groups) && Area(8 * groups, typeSize) <= |block|
    ensures Bitshuffle.BitShuffled(data, block, groups, typeSize)
  {
    hide Bitshuffle.BitCell, Digit, BitsApart, Area;
    forall g: nat, j: nat, b: nat | g < groups && j < typeSize && b < 8
      ensures Bitshuffle.BitCell(data, block, groups, typeSize, g, j, b)
    {
      LandedCell(data, block, typeSize, groups, g, j, b);
    }
  }

  lemma {:induction false} LandedCell(data: seq<byte>, block: seq<byte>, typeSize: nat, groups: nat, g: nat, j: nat, b: nat)
    requires BitsApart(data, block, typeSize, groups) && g < groups && j < typeSize && b < 8
    ensures Bitshuffle.BitCell(data, block, groups, typeSize, g, j, b)
  {
    hide Digit, BitMatrix.Gather, BitsApart, Limit;
    var at := (8 * j + b) * groups + g;
    var eight := Bitshuffle.Eight(block, g, j, typeSize);
    LandedDigit(data, block, typeSize, groups, g, j, b, 0);
    forall r: nat | r < 8
      ensures Digit(data[at], r) == Digit(BitMatrix.Gather(eight, b), r)
    {
      LandedDigit(data, block, typeSize, groups, g, j, b, r);
    }
    ByteLimit();
    SameDigits(data[at], BitMatrix.Gather(eight, b), 8);
    Bitshuffle.RowIndices(typeSize, groups, g, j, b);
    assert Ix(8 * j + b, g, groups) == at;
  }

  lemma {:induction false} LandedDigit(data: seq<byte>, block: seq<byte>, typeSize: nat, groups: nat, g: nat, j: nat, b: nat, r: nat)
    requires BitsApart(data, block, typeSize, groups) && g < groups && j < typeSize && b < 8 && r < 8
    ensures var at := (8 * j + b) * groups + g; at < |data| && Digit(data[at], r) == Digit(BitMatrix.Gather(Bitshuffle.Eight(block, g, j, typeSize), b), r)
  {
    hide Digit, BitMatrix.Gather;
    var e := 8 * g + r;
    assert e / 8 == g && e % 8 == r;
    assert BitApart(data, block, typeSize, groups, e, j, b);
    assert Ix(e, j, typeSize) == e * typeSize + j;
    BitMatrix.GatherDigit(Bitshuffle.Eight(block, g, j, typeSize), b, r);
  }

  /** What the flags mean for a block, byte by byte and bit by bit. */
  lemma {:induction false} FilterApart(flags: byte, typeSize: nat, data: seq<byte>, block: seq<byte>)
    requires typeSize > 0 && |data| == |block|
    ensures Filtered(FilterOf(flags), typeSize, data, block) <==> TakenApart(flags, typeSize, data, block)
  {
    hide BytesApart, BitsApart, Shuffle.Shuffled, Bitshuffle.BitShuffled;
    var q := |block| / typeSize;
    if flags % 2 == 1 && typeSize >= 2 {
      ShuffledApart(data, block, typeSize);
    } else if flags / 4 % 2 == 1 && |block| >= typeSize && q % 8 == 0 {
      Shuffle.WholeElements(|block|, typeSize);
      assert Area(q, typeSize) == q * typeSize && 8 * (q / 8) == q;
      if BitsApart(data, block, typeSize, q / 8) {
        LandedBits(data, block, typeSize, q / 8);
      }
      if Bitshuffle.BitShuffled(data, block, q / 8, typeSize) {
        BitsLand(data, block, typeSize, q / 8);
      }
    }
  }

  // ----- splits and blocks at their places -----

  /** The four bytes at `at`, least significant first. */
  function Number(chunk: seq<byte>, at: nat): nat
    requires at + 4 <= |chunk|
  {
    chunk[at] as int + 256 * (chunk[at + 1] as int) + 65536 * (chunk[at + 2] as int) + 16777216 * (chunk[at + 3] as int)
  }

  /** Bytes of the same number are the split itself, any others what the codec of the format expands to it:
      0 is BloscLZ, 1 is LZ4. */
  ghost predicate Piece(libs: Libraries, format: nat, z: seq<byte>, s: seq<byte>) {
    |z| < 2147483648 &&
    if |z| == |s| then z == s
    else if format == 0 then BloscLzFormat.Decode(z, |s|) == s
    else if format == 1 then Expand(z, []) == Some(s) && Strict(z, 0, |s|)
    else libs.decompress(format, z, |s|) == Some(s)
  }

  /** `k` splits of `ne` bytes each, one behind the other, each behind its number of bytes. */
  ghost predicate Pieces(libs: Libraries, format: nat, chunk: seq<byte>, at: nat, data: seq<byte>, ne: nat, k: nat)
    decreases k
  {
    if k == 0 then data == []
    else
      && at + 4 <= |chunk| && ne <= |data|
      && var to := at + 4 + Number(chunk, at);
      && to <= |chunk| && Piece(libs, format, chunk[at + 4..to], data[..ne])
      && Pieces(libs, format, chunk, to, data[ne..], ne, k - 1)
  }

  /** The block at `at`, by the flags and the type size in bytes 2 and 3: bit 4 keeps it in one piece, and so do
      elements of more than 16 bytes, less than 128 elements, and being shorter than the others. */
  ghost predicate BlockAt(libs: Libraries, chunk: seq<byte>, at: nat, block: seq<byte>, leftover: bool)
    requires |chunk| >= 4 && chunk[3] > 0
  {
    var flags, t := chunk[2], chunk[3];
    var k := if flags / 16 % 2 == 0 && t <= 16 && |block| / t >= 128 && !leftover then t else 1;
    at <= |chunk| && exists data :: |data| == |block| && TakenApart(flags, t, data, block) && Pieces(libs, flags / 32, chunk, at, data, |block| / k, k)
  }

  /** The block of `src` from `lo` on, `bs` bytes or up to the end. */
  function Stretch(src: seq<byte>, lo: nat, bs: nat): seq<byte>
    requires lo <= |src|
  {
    if lo + bs <= |src| then src[lo..lo + bs] else src[lo..]
  }

  /** A chunk with `src` in it. Bytes 0 and 1 are versions, byte 2 the flags (bit 1: copied behind the header), then
      the type size, three numbers, and for each block of a buffer that is not copied the place where it starts. */
  ghost predicate Image(libs: Libraries, chunk: seq<byte>, src: seq<byte>) {
    && 16 <= |chunk| <= 2147483647 && |src| <= 2147483631
    && chunk[0] == 2 && chunk[1] == 1 && chunk[3] > 0
    && chunk[2] < 160 && chunk[2] / 8 % 2 == 0
    && Number(chunk, 4) == |src| && Number(chunk, 12) == |chunk|
    && var bs := Number(chunk, 8);
    && 0 < bs <= 715827542 && (src != [] ==> bs <= |src|)
    && if chunk[2] / 2 % 2 == 1 then chunk[16..] == src else Index(libs, chunk, src, bs)
  }

  ghost predicate Index(libs: Libraries, chunk: seq<byte>, src: seq<byte>, bs: nat)
    requires |chunk| >= 4 && chunk[3] > 0 && bs > 0
  {
    && var n := (|src| + bs - 1) / bs;
    && 16 + 4 * n + 4 <= |chunk|
    && forall j: nat :: j < n ==> Indexed(libs, chunk, src, bs, n, j)
  }

  ghost predicate Indexed(libs: Libraries, chunk: seq<byte>, src: seq<byte>, bs: nat, n: nat, j: nat)
    requires |chunk| >= 4 && chunk[3] > 0
  {
    && j * bs <= |src| && 16 + 4 * j + 4 <= |chunk|
    && var at := Number(chunk, 16 + 4 * j);
    && at >= 16 + 4 * n && BlockAt(libs, chunk, at, Stretch(src, j * bs, bs), j * bs + bs > |src|)
  }

  // ----- the same as the chunk's format -----

  lemma {:induction false} NumberRead(chunk: seq<byte>, at: nat)
    requires at + 4 <= |chunk|
    ensures Le32(chunk[at..]) == Number(chunk, at)
  {
  }

  lemma {:induction false} PieceStands(libs: Libraries, format: nat, z: seq<byte>, s: seq<byte>)
    ensures SplitOk(libs, format, z, s) <==> Piece(libs, format, z, s)
  {
    hide Expand, Strict, BloscLzFormat.Decode;
  }

  lemma {:induction false} Inside(s: seq<byte>, from: nat, to: nat, lo: nat, hi: nat)
    requires from <= to <= |s| && lo <= hi <= to - from
    ensures s[from..to][lo..hi] == s[from + lo..from + hi]
  {
    var t, u := s[from..to][lo..hi], s[from + lo..from + hi];
    assert forall k :: 0 <= k < hi - lo ==> t[k] == u[k];
  }

  /** Splits at a place are splits in a slice that begins there, of the right length. */
  lemma {:induction false} PiecesFound(libs: Libraries, format: nat, chunk: seq<byte>, at: nat, len: nat, data: seq<byte>, ne: nat, k: nat)
    requires at + len <= |chunk| && SplitsOk(libs, format, chunk[at..at + len], data, ne, k)
    ensures Pieces(libs, format, chunk, at, data, ne, k)
    decreases k
  {
    hide SplitOk, Piece, Le32, Number;
    if k > 0 {
      var b := chunk[at..at + len];
      NumberRead(chunk, at);
      Le32Part(chunk, at, len);
      var c := Number(chunk, at);
      assert 4 + c <= len;
      Inside(chunk, at, at + len, 4, 4 + c);
      Inside(chunk, at, at + len, 4 + c, len);
      PieceStands(libs, format, b[4..4 + c], data[..ne]);
      PiecesFound(libs, format, chunk, at + 4 + c, len - 4 - c, data[ne..], ne, k - 1);
    }
  }

  lemma {:induction false} Le32Part(chunk: seq<byte>, at: nat, len: nat)
    requires 4 <= len && at + len <= |chunk|
    ensures Le32(chunk[at..at + len]) == Le32(chunk[at..])
  {
  }

  lemma {:induction false} FoundPieces(libs: Libraries, format: nat, chunk: seq<byte>, at: nat, data: seq<byte>, ne: nat, k: nat) returns (len: nat)
    requires Pieces(libs, format, chunk, at, data, ne, k) && at <= |chunk|
    ensures at + len <= |chunk| && SplitsOk(libs, format, chunk[at..at + len], data, ne, k)
    decreases k
  {
    hide SplitOk, Piece, Le32, Number;
    if k == 0 {
      len := 0;
    } else {
      var c := Number(chunk, at);
      var more := FoundPieces(libs, format, chunk, at + 4 + c, data[ne..], ne, k - 1);
      len := 4 + c + more;
      NumberRead(chunk, at);
      Le32Part(chunk, at, len);
      var b := chunk[at..at + len];
      assert b[4..4 + c] == chunk[at + 4..at + 4 + c] && b[4 + c..] == chunk[at + 4 + c..at + 4 + c + more];
      PieceStands(libs, format, b[4..4 + c], data[..ne]);
      SplitsUncons(libs, format, b, data, ne, k);
    }
  }

  /** A block encoded somewhere, and a block at that place. */
  lemma {:induction false} BlockFound(libs: Libraries, l: Layout, chunk: seq<byte>, at: nat, block: seq<byte>, leftover: bool)
    requires |chunk| >= 4 && 0 < chunk[3] == l.typeSize && l.format == chunk[2] / 32 && l.filter == FilterOf(chunk[2])
    requires l.dontSplit <==> chunk[2] / 16 % 2 == 1
    ensures BlockAt(libs, chunk, at, block, leftover) <==> exists len: nat :: BlockIn(libs, l, chunk, at, len, block, leftover)
  {
    hide SplitsOk, Pieces, Filtered, TakenApart, FilterOf;
    var flags, t := chunk[2], chunk[3];
    var k := Splits(l, |block|, leftover);
    if BlockAt(libs, chunk, at, block, leftover) {
      var data :| |data| == |block| && TakenApart(flags, t, data, block) && Pieces(libs, flags / 32, chunk, at, data, |block| / k, k);
      FilterApart(flags, t, data, block);
      var len := FoundPieces(libs, flags / 32, chunk, at, data, |block| / k, k);
      assert BlockIn(libs, l, chunk, at, len, block, leftover);
    }
    if len: nat :| BlockIn(libs, l, chunk, at, len, block, leftover) {
      var data :| |data| == |block| && Filtered(l.filter, t, data, block) && SplitsOk(libs, l.format, chunk[at..at + len], data, |block| / k, k);
      FilterApart(flags, t, data, block);
      PiecesFound(libs, l.format, chunk, at, len, data, |block| / k, k);
    }
  }

  lemma {:induction false} Counted(n: nat, bs: nat)
    requires bs > 0
    ensures BlockCount(n, bs) == (n + bs - 1) / bs
  {
    var q, r := n / bs, n % bs;
    FullBlocks(n, bs);
    var p, c := (n + bs - 1) / bs, (n + bs - 1) % bs;
    assert Ix(p, c, bs) == n + bs - 1;
    if r == 0 {
      assert Ix(q, bs - 1, bs) == n + bs - 1;
    } else {
      NextStart(q, bs);
      assert Ix(q + 1, r - 1, bs) == n + bs - 1;
    }
    IxUnique(p, c, bs);
  }

  lemma {:induction false} Stretched(src: seq<byte>, bs: nat, j: nat)
    requires bs > 0 && j < BlockCount(|src|, bs)
    ensures j * bs < |src| && Block(src, bs, j) == Stretch(src, j * bs, bs)
    ensures IsLeftover(|src|, bs, j) <==> j * bs + bs > |src|
  {
    hide BlockCount;
    assert BlockStart(j, bs) == j * bs;
    BlocksFit(|src|, bs, j);
    Advance(|src|, bs, j);
  }

  lemma {:induction false} BlockIndexed(libs: Libraries, l: Layout, chunk: seq<byte>, src: seq<byte>, j: nat)
    requires l.blockSize > 0 && j < BlockCount(|src|, l.blockSize) && 16 + 4 * BlockCount(|src|, l.blockSize) <= |chunk|
    requires 0 < chunk[3] == l.typeSize && l.format == chunk[2] / 32 && l.filter == FilterOf(chunk[2])
    requires l.dontSplit <==> chunk[2] / 16 % 2 == 1
    ensures HoldsBlock(libs, l, chunk, src, j) <==> Indexed(libs, chunk, src, l.blockSize, BlockCount(|src|, l.blockSize), j)
  {
    hide BlockCount, BlockAt, BlockIn, Number, Le32, Block, Stretch, IsLeftover, FilterOf;
    var bs, at := l.blockSize, Number(chunk, 16 + 4 * j);
    NumberRead(chunk, 16 + 4 * j);
    Stretched(src, bs, j);
    BlockFound(libs, l, chunk, at, Block(src, bs, j), IsLeftover(|src|, bs, j));
    assert Start(chunk, j) == at;
    assert BlockAt(libs, chunk, at, Block(src, bs, j), IsLeftover(|src|, bs, j)) <==> BlockAt(libs, chunk, at, Stretch(src, j * bs, bs), j * bs + bs > |src|);
  }

  /** What a chunk's header says about its blocks. */
  function LayoutIn(chunk: seq<byte>): Layout
    requires |chunk| >= 16
  {
    Layout(chunk[2] / 32, FilterOf(chunk[2]), chunk[3], chunk[2] / 16 % 2 == 1, Number(chunk, 8))
  }

  lemma {:induction false} LowOnce(low: byte)
    requires low < 32 && low / 8 % 2 == 0
    ensures LowFlags(FilterOf(low), low / 2 % 2 == 1, low / 16 % 2 == 1) == low
  {
    assert low == 16 * (low / 16 % 2) + 4 * (low / 4 % 2) + 2 * (low / 2 % 2) + low % 2;
  }

  lemma {:induction false} LowBits(flags: byte)
    ensures var low := flags % 32; low % 2 == flags % 2 && low / 4 % 2 == flags / 4 % 2 && low / 8 % 2 == flags / 8 % 2
  {
    var low := flags % 32;
    assert flags == low + 32 * (flags / 32);
    assert flags / 4 == low / 4 + 8 * (flags / 32) && flags / 8 == low / 8 + 4 * (flags / 32);
  }

  /** The flags of a layout are those it can be read from. */
  lemma {:induction false} FlagsOnce(flags: byte)
    requires flags < 160 && flags / 8 % 2 == 0
    ensures LowFlags(FilterOf(flags), flags / 2 % 2 == 1, flags / 16 % 2 == 1) + 32 * (flags / 32) == flags
  {
    hide LowFlags, FilterOf;
    var low: byte, f: nat := flags % 32, flags / 32;
    LowBits(flags);
    LowOnce(low);
    HighFlags(low, f);
    assert flags == low + 32 * f;
  }

  lemma {:induction false} BlocksIndexed(libs: Libraries, l: Layout, chunk: seq<byte>, src: seq<byte>)
    requires l.blockSize > 0 && |chunk| >= 4
    requires 0 < chunk[3] == l.typeSize && l.format == chunk[2] / 32 && l.filter == FilterOf(chunk[2])
    requires l.dontSplit <==> chunk[2] / 16 % 2 == 1
    ensures HoldsBlocks(libs, l, chunk, src) <==> Index(libs, chunk, src, l.blockSize)
  {
    hide BlockCount, HoldsBlock, Indexed, FilterOf;
    var bs, n := l.blockSize, BlockCount(|src|, l.blockSize);
    Counted(|src|, bs);
    if 16 + 4 * n + 4 <= |chunk| {
      forall j: nat | j < n
        ensures HoldsBlock(libs, l, chunk, src, j) <==> Indexed(libs, chunk, src, bs, n, j)
      {
        BlockIndexed(libs, l, chunk, src, j);
      }
    }
  }

  lemma {:induction false} NumbersRead(chunk: seq<byte>)
    requires |chunk| >= 16
    ensures Le32(chunk[4..]) == Number(chunk, 4) && Le32(chunk[8..]) == Number(chunk, 8) && Le32(chunk[12..]) == Number(chunk, 12)
  {
    hide Le32, Number;
    NumberRead(chunk, 4);
    NumberRead(chunk, 8);
    NumberRead(chunk, 12);
  }

  /** A chunk holds a buffer in some layout exactly when its bytes say so. */
  lemma {:induction false} HoldsExactly(libs: Libraries, l: Layout, memcpyed: bool, chunk: seq<byte>, src: seq<byte>)
    ensures Holds(libs, l, memcpyed, chunk, src) ==>
      Image(libs, chunk, src) && l == LayoutIn(chunk) && (memcpyed <==> chunk[2] / 2 % 2 == 1)
    ensures Image(libs, chunk, src) ==> Holds(libs, LayoutIn(chunk), chunk[2] / 2 % 2 == 1, chunk, src)
  {
    hide HoldsBlocks, Index, Le32, Number, FilterOf, LowFlags;
    if Holds(libs, l, memcpyed, chunk, src) {
      NumbersRead(chunk);
      FlagsRead(l, memcpyed);
      BlocksIndexed(libs, l, chunk, src);
    }
    if Image(libs, chunk, src) {
      NumbersRead(chunk);
      FlagsOnce(chunk[2]);
      BlocksIndexed(libs, LayoutIn(chunk), chunk, src);
    }
  }

  /** blosc_decompress on such bytes: the buffer comes back whenever it fits the destination size cast to 32 bits. */
  method DecompressImage(libs: Libraries, chunk: seq<byte>, dest: array<byte>, destsize: nat, ghost src: seq<byte>) returns (r: int)
    requires Image(libs, chunk, src) && destsize <= dest.Length
    modifies dest
    ensures if |src| <= Int32(destsize) || src == [] then r == |src| <= dest.Length && dest[..r] == src else r == -1
    ensures SameFrom(dest[..], old(dest[..]), destsize)
  {
    hide Index, Holds, Le32, Number, FilterOf;
    var memcpyed := chunk[2] / 2 % 2 == 1;
    HoldsExactly(libs, LayoutIn(chunk), memcpyed, chunk, src);
    ChunkReader.HeaderRead(libs, LayoutIn(chunk), memcpyed, chunk, src);
    var astray;
    r, astray := ChunkReader.Decompress(libs, chunk, dest, destsize, LayoutIn(chunk), memcpyed, src);
  }

  /** The codec's number in the flags. */
  lemma {:induction false} FormatNumbers(c: CompCode)
    ensures Format(c) == if c.BloscLz? then 0 else if c.Lz4? || c.Lz4Hc? then 1 else if c.Snappy? then 2 else if c.Zlib? then 3 else 4
  {
  }

  /** blosc_compress_ctx: what it returns is such bytes, with the codec, the filter and the type size asked for. */
  method CompressImage(libs: Libraries, clevel: int, doshuffle: int, typeSize: int, src: seq<byte>, dest: array<byte>, destsize: nat,
                       codec: CompCode, forced: nat, mode: ChunkWriter.SplitMode) returns (r: int, overrun: bool)
    requires Meets(libs) && destsize <= dest.Length
    requires 0 <= clevel <= 9 && typeSize > 0 ==>
      var l := ChunkWriter.LayoutFor(codec, clevel, doshuffle, typeSize, |src|, forced, mode); ChunkWriter.SafeMode(mode, l.typeSize, l.blockSize)
    modifies dest
    ensures !overrun ==> r <= destsize && r <= |src| + 16
    ensures !overrun && r > 0 ==> Image(libs, dest[..r], src)
    ensures !overrun && r > 0 ==> dest[3] == if typeSize > 255 then 1 else typeSize
    ensures !overrun && r > 0 ==> (dest[2] % 2 == 1 <==> doshuffle == 1) && (dest[2] / 4 % 2 == 1 <==> doshuffle == 2)
    ensures !overrun && r > 0 ==>
      dest[2] / 32 == if codec.BloscLz? then 0 else if codec.Lz4? || codec.Lz4Hc? then 1 else if codec.Snappy? then 2 else if codec.Zlib? then 3 else 4
    ensures !overrun && r > 0 && (clevel == 0 || |src| < 128) ==> dest[2] / 2 % 2 == 1
    ensures |src| > 2147483631 || destsize < 16 ==> r == 0
    ensures |src| <= 2147483631 && destsize >= 16 && (clevel < 0 || clevel > 9 || doshuffle < 0 || doshuffle > 2 || typeSize <= 0) ==> r == -10
    ensures !overrun && destsize >= |src| + 16 && |src| <= 2147483631 && 0 <= clevel <= 9 && 0 <= doshuffle <= 2 && typeSize > 0 ==> r > 0
  {
    hide Index, Meets, Holds, Number, ChunkWriter.ComputeBlockSize, ChunkWriter.SplitBlock, ChunkWriter.SafeMode;
    ghost var l, memcpyed, raw;
    var behind;
    r, overrun, behind, l, memcpyed, raw := ChunkWriter.Compress(libs, clevel, doshuffle, typeSize, src, dest, destsize, codec, forced, mode);
    if !overrun && r > 0 {
      HoldsExactly(libs, l, memcpyed, dest[..r], src);
      FormatNumbers(codec);
    }
  }
}
