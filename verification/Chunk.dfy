// The Blosc chunk: header, block starts, blocks and splits, and what it means for a chunk to hold a buffer.

module Chunk {
  import opened Bytes
  import opened CopyKernels
  import opened Lz4Format
  import Grids
  import BloscLzFormat
  import Shuffle
  import Bitshuffle

  const VERSION_FORMAT := 2
  const MAX_OVERHEAD := 16
  const MAX_BUFFERSIZE := INT_MAX - MAX_OVERHEAD
  const MAX_TYPESIZE := 255
  const MAX_BLOCKSIZE := (INT_MAX - MAX_TYPESIZE * 4) / 3
  const MIN_BUFFERSIZE := 128
  const MAX_SPLITS := 16

  // ----- sums of sizes -----

  /** The code's test whether `n` more bytes at `at` pass `limit`. */
  predicate Exceeds(at: nat, n: nat, limit: nat) {
    Int32(at + n) > limit
  }

  /** The test is right exactly when the sum does not wrap; when it does, there always seems to be room. */
  lemma {:induction false} SpaceTest(at: nat, n: nat, limit: nat)
    requires at + n < 0xFFFF_FFFF && limit <= INT_MAX
    ensures Exceeds(at, n, limit) <==> limit < at + n <= INT_MAX
    ensures (Exceeds(at, n, limit) <==> at + n > limit) <==> at + n <= INT_MAX
  {
    if at + n <= INT_MAX {
      assert (at + n + 0x8000_0000) % 0x1_0000_0000 == at + n + 0x8000_0000;
    } else {
      assert (at + n + 0x8000_0000) % 0x1_0000_0000 == at + n - 0x8000_0000;
    }
  }

  // ----- codecs -----

  datatype CompCode = BloscLz | Lz4 | Lz4Hc | Snappy | Zlib | Zstd

  /** The format number a compressor's output carries in the flags. */
  function Format(c: CompCode): (f: nat)
    ensures f <= 4
  {
    match c
    case BloscLz => 0
    case Lz4 => 1
    case Lz4Hc => 1
    case Snappy => 2
    case Zlib => 3
    case Zstd => 4
  }

  /** The libraries behind the other codecs: a failed compression is empty, a failed decompression is None.
      `bound` is snappy_max_compressed_length. */
  datatype Libraries = Libraries(
    compress: (CompCode, seq<byte>, nat, nat) -> seq<byte>,
    decompress: (nat, seq<byte>, nat) -> Option<seq<byte>>,
    bound: nat -> nat)

  /** The decoder of `format` turns `z` into `s` when it is asked for |s| bytes. */
  ghost predicate Stands(libs: Libraries, format: nat, z: seq<byte>, s: seq<byte>) {
    if format == 0 then BloscLzFormat.Decode(z, |s|) == s
    else if format == 1 then Expand(z, []) == Some(s) && Strict(z, 0, |s|)
    else libs.decompress(format, z, |s|) == Some(s)
  }

  /** The codec contract: the output fits, and decompression gives the input back; snappy_max_compressed_length
      of a block is no less than the block and far below 2^31. */
  ghost predicate Meets(libs: Libraries) {
    && (forall c: CompCode, s: seq<byte>, maxout: nat, clevel: nat ::
      var z := libs.compress(c, s, maxout, clevel);
      Format(c) >= 2 ==> |z| <= maxout && (z != [] ==> Stands(libs, Format(c), z, s)))
    && (forall format: nat, z: seq<byte>, n: nat ::
      libs.decompress(format, z, n).Some? ==> |libs.decompress(format, z, n).value| <= n)
    && (forall n: nat :: n <= MAX_BLOCKSIZE ==> n <= libs.bound(n) < 0x4000_0000)
  }

  /** The room for the codec's output that blosc_c asks for. */
  function Want(libs: Libraries, c: CompCode, n: nat): nat {
    if c.Snappy? then libs.bound(n) else n
  }

  // ----- splits and blocks -----

  /** A split is stored as it is, which shows by its length, or compressed. */
  ghost predicate SplitOk(libs: Libraries, format: nat, z: seq<byte>, s: seq<byte>) {
    |z| < 0x8000_0000 && if |z| == |s| then z == s else Stands(libs, format, z, s)
  }

  function Le32Bytes(v: nat): (s: seq<byte>)
    requires v < 0x1_0000_0000
    ensures |s| == 4 && Le32(s) == v
  {
    Le16Bytes(v % 0x1_0000) + Le16Bytes(v / 0x1_0000)
  }

  /** `b` is exactly `k` splits with their lengths, holding `data` in pieces of `ne` bytes. */
  ghost predicate SplitsOk(libs: Libraries, format: nat, b: seq<byte>, data: seq<byte>, ne: nat, k: nat)
    decreases k
  {
    if k == 0 then b == [] && data == []
    else
      && |b| >= 4 && ne <= |data| && 4 + Le32(b) <= |b|
      && SplitOk(libs, format, b[4..4 + Le32(b)], data[..ne])
      && SplitsOk(libs, format, b[4 + Le32(b)..], data[ne..], ne, k - 1)
  }

  /** The first split taken off. */
  lemma {:induction false} SplitsUncons(libs: Libraries, format: nat, b: seq<byte>, data: seq<byte>, ne: nat, k: nat)
    requires k > 0 && |b| >= 4 && ne <= |data| && 4 + Le32(b) <= |b|
    ensures SplitsOk(libs, format, b, data, ne, k)
      <==> SplitOk(libs, format, b[4..4 + Le32(b)], data[..ne]) && SplitsOk(libs, format, b[4 + Le32(b)..], data[ne..], ne, k - 1)
  {
    hide SplitOk, Le32;
  }

  lemma {:induction false} OneSplitOk(libs: Libraries, format: nat, z: seq<byte>, s: seq<byte>)
    requires SplitOk(libs, format, z, s) && |z| < 0x8000_0000
    ensures SplitsOk(libs, format, Le32Bytes(|z|) + z, s, |s|, 1)
  {
    hide SplitOk, Le32Bytes, Le32;
    var b := Le32Bytes(|z|) + z;
    Le32Prefix(Le32Bytes(|z|), z);
    assert b[4..4 + |z|] == z && b[4 + |z|..] == [] && s[..|s|] == s && s[|s|..] == [];
    SplitsUncons(libs, format, b, s, |s|, 1);
  }

  /** One more split at the end. */
  lemma {:induction false} SplitsAppend(libs: Libraries, format: nat, b: seq<byte>, data: seq<byte>, ne: nat, k: nat, z: seq<byte>, s: seq<byte>)
    requires SplitsOk(libs, format, b, data, ne, k) && SplitOk(libs, format, z, s) && |s| == ne && |z| < 0x8000_0000
    ensures SplitsOk(libs, format, b + (Le32Bytes(|z|) + z), data + s, ne, k + 1)
    decreases k
  {
    hide SplitOk, Le32Bytes, Le32;
    var more := Le32Bytes(|z|) + z;
    if k == 0 {
      assert b + more == more && data + s == s;
      OneSplitOk(libs, format, z, s);
    } else {
      var c := Le32(b);
      SplitsAppend(libs, format, b[4 + c..], data[ne..], ne, k - 1, z, s);
      SplitsPrepend(libs, format, b, data, ne, k, more, s);
    }
  }

  lemma {:induction false} SplitsPrepend(libs: Libraries, format: nat, b: seq<byte>, data: seq<byte>, ne: nat, k: nat, more: seq<byte>, s: seq<byte>)
    requires k > 0 && |b| >= 4 && ne <= |data| && 4 + Le32(b) <= |b| && SplitOk(libs, format, b[4..4 + Le32(b)], data[..ne])
    requires SplitsOk(libs, format, b[4 + Le32(b)..] + more, data[ne..] + s, ne, k)
    ensures SplitsOk(libs, format, b + more, data + s, ne, k + 1)
  {
    hide SplitOk, SplitsOk, Le32;
    var c := Le32(b);
    Le32Prefix(b, more);
    assert (b + more)[4..4 + c] == b[4..4 + c];
    assert (b + more)[4 + c..] == b[4 + c..] + more;
    assert (data + s)[..ne] == data[..ne] && (data + s)[ne..] == data[ne..] + s;
    SplitsUncons(libs, format, b + more, data + s, ne, k + 1);
  }

  lemma {:induction false} Le32Prefix(a: seq<byte>, more: seq<byte>)
    requires |a| >= 4
    ensures Le32(a + more) == Le32(a)
  {
  }

  /** The filters that the flags ask for; no writer asks for both. */
  datatype Filter = NoFilter | ByteShuffle | BitShuffle | BothShuffles

  /** The filter applied to a block of this size before its splits are compressed: byte shuffling needs elements of
      several bytes, bit shuffling at least one whole element, and only one of them is done. */
  function EffectiveFilter(f: Filter, typeSize: nat, blockSize: nat): (e: Filter)
    ensures !e.BothShuffles?
  {
    match f
    case NoFilter => NoFilter
    case ByteShuffle => if typeSize > 1 then ByteShuffle else NoFilter
    case BitShuffle => if blockSize >= typeSize then BitShuffle else NoFilter
    case BothShuffles => if typeSize > 1 then ByteShuffle else if blockSize >= typeSize then BitShuffle else NoFilter
  }

  ghost predicate Filtered(f: Filter, typeSize: nat, data: seq<byte>, block: seq<byte>)
    requires typeSize > 0
  {
    match EffectiveFilter(f, typeSize, |block|)
    case NoFilter => data == block
    case ByteShuffle => Shuffle.Shuffled(data, block, typeSize)
    case BitShuffle => Bitshuffle.Bitshuffled(data, block, typeSize)
  }

  /** What a reader learns from the header about every block. */
  datatype Layout = Layout(format: nat, filter: Filter, typeSize: nat, dontSplit: bool, blockSize: nat)

  /** The reader's number of splits; the size test serves chunks older than the split flag. */
  function Splits(l: Layout, size: nat, leftover: bool): (k: nat)
    requires l.typeSize > 0
    ensures k > 0
  {
    if !l.dontSplit && l.typeSize <= MAX_SPLITS && size / l.typeSize >= MIN_BUFFERSIZE && !leftover then l.typeSize else 1
  }

  /** `b` is the form of `block` encoded in `k` splits. */
  ghost predicate EncodedIn(libs: Libraries, l: Layout, b: seq<byte>, block: seq<byte>, k: nat)
    requires l.typeSize > 0 && k > 0
  {
    exists data :: |data| == |block| && Filtered(l.filter, l.typeSize, data, block) && SplitsOk(libs, l.format, b, data, |block| / k, k)
  }

  /** `b` is the encoded form of `block`, in as many splits as a reader expects. */
  ghost predicate BlockOk(libs: Libraries, l: Layout, b: seq<byte>, block: seq<byte>, leftover: bool) {
    l.typeSize > 0 && EncodedIn(libs, l, b, block, Splits(l, |block|, leftover))
  }

  // ----- the buffer in blocks -----

  function BlockCount(n: nat, blockSize: nat): nat
    requires blockSize > 0
  {
    n / blockSize + (if n % blockSize > 0 then 1 else 0)
  }

  /** Where block `j` starts in the buffer. */
  function BlockStart(j: nat, blockSize: nat): nat {
    j * blockSize
  }

  lemma {:induction false} NextStart(j: nat, blockSize: nat)
    ensures BlockStart(j + 1, blockSize) == BlockStart(j, blockSize) + blockSize && BlockStart(0, blockSize) == 0
  {
    assert (j + 1) * blockSize == j * blockSize + blockSize;
  }

  lemma {:induction false} StartsGrow(i: nat, j: nat, blockSize: nat)
    requires i <= j
    ensures BlockStart(i, blockSize) <= BlockStart(j, blockSize)
    decreases j
  {
    if i < j {
      StartsGrow(i, j - 1, blockSize);
      NextStart(j - 1, blockSize);
    }
  }

  /** The last block ends with the buffer, every other one is full. */
  lemma {:induction false} BlocksFit(n: nat, blockSize: nat, j: nat)
    requires blockSize > 0 && j < BlockCount(n, blockSize)
    ensures BlockStart(j, blockSize) < n
    ensures j + 1 < BlockCount(n, blockSize) ==> BlockStart(j, blockSize) + blockSize < n
    ensures j + 1 == BlockCount(n, blockSize) ==> n - BlockStart(j, blockSize) == (if n % blockSize > 0 then n % blockSize else blockSize)
  {
    hide BlockStart;
    FullBlocks(n, blockSize);
    NextStart(j, blockSize);
    if j < n / blockSize {
      StartsGrow(j + 1, n / blockSize, blockSize);
    }
    if j + 1 < n / blockSize {
      NextStart(j + 1, blockSize);
      StartsGrow(j + 2, n / blockSize, blockSize);
    }
  }

  lemma {:induction false} FullBlocks(n: nat, blockSize: nat)
    requires blockSize > 0
    ensures BlockStart(n / blockSize, blockSize) + n % blockSize == n
  {
  }

  /** The size of block `j` as the block loops compute it, and whether it is the shorter last one. */
  function BlockSize(n: nat, blockSize: nat, j: nat): nat
    requires blockSize > 0
  {
    if j + 1 == BlockCount(n, blockSize) && n % blockSize > 0 then n % blockSize else blockSize
  }

  predicate IsLeftover(n: nat, blockSize: nat, j: nat)
    requires blockSize > 0
  {
    j + 1 == BlockCount(n, blockSize) && n % blockSize > 0
  }

  lemma {:induction false} NoBlocks(n: nat, blockSize: nat)
    requires blockSize > 0
    ensures BlockCount(n, blockSize) == 0 <==> n == 0
  {
    FullBlocks(n, blockSize);
    if n == 0 {
      Grids.IxUnique(0, 0, blockSize);
      assert Grids.Ix(n / blockSize, n % blockSize, blockSize) == Grids.Ix(0, 0, blockSize);
    }
  }

  /** Block `j` starts where the ones before end, and ends where the next one starts or with the buffer. */
  lemma {:induction false} Advance(n: nat, blockSize: nat, j: nat)
    requires blockSize > 0 && j < BlockCount(n, blockSize)
    ensures var e := BlockStart(j, blockSize) + BlockSize(n, blockSize, j);
      e <= n && (j + 1 < BlockCount(n, blockSize) ==> e == BlockStart(j + 1, blockSize)) && (j + 1 == BlockCount(n, blockSize) ==> e == n)
  {
    hide BlockCount, BlockStart;
    BlocksFit(n, blockSize, j);
    NextStart(j, blockSize);
  }

  /** Stores `s` at `at`. */
  method StoreAt(dest: array<byte>, at: nat, s: seq<byte>)
    requires at + |s| <= dest.Length
    modifies dest
    ensures dest[at..at + |s|] == s && SameOutside(dest[..], old(dest[..]), at, at + |s|)
  {
    forall i | at <= i < at + |s| {
      dest[i] := s[i - at];
    }
  }

  /** serial_blosc and t_blosc when blocks are only copied: block by block, all of `data` ends up at `to`. */
  method CopyByBlocks(data: seq<byte>, dest: array<byte>, to: nat, blockSize: nat) returns (ntbytes: nat)
    requires blockSize > 0 && to + |data| <= dest.Length
    modifies dest
    ensures ntbytes == |data| && dest[to..to + ntbytes] == data
    ensures SameOutside(dest[..], old(dest[..]), to, to + |data|)
  {
    hide BlockCount, BlockStart, BlockSize;
    ntbytes := 0;
    var j := 0;
    NextStart(0, blockSize);
    NoBlocks(|data|, blockSize);
    while j < BlockCount(|data|, blockSize)
      invariant j <= BlockCount(|data|, blockSize) && ntbytes <= |data|
      invariant if j < BlockCount(|data|, blockSize) then ntbytes == BlockStart(j, blockSize) else ntbytes == |data|
      invariant dest[to..to + ntbytes] == data[..ntbytes]
      invariant SameOutside(dest[..], old(dest[..]), to, to + |data|)
    {
      Advance(|data|, blockSize, j);
      CopyOneBlock(data, dest, to, BlockStart(j, blockSize), BlockSize(|data|, blockSize, j));
      j, ntbytes := j + 1, ntbytes + BlockSize(|data|, blockSize, j);
    }
  }

  method CopyOneBlock(data: seq<byte>, dest: array<byte>, to: nat, at: nat, size: nat)
    requires at + size <= |data| && to + |data| <= dest.Length && dest[to..to + at] == data[..at]
    modifies dest
    ensures dest[to..to + at + size] == data[..at + size]
    ensures SameOutside(dest[..], old(dest[..]), to + at, to + at + size)
  {
    StoreAt(dest, to + at, data[at..at + size]);
    assert dest[to..to + at + size] == dest[to..to + at] + dest[to + at..to + at + size];
    assert data[..at + size] == data[..at] + data[at..at + size];
  }

  function Block(s: seq<byte>, blockSize: nat, j: nat): (b: seq<byte>)
    requires blockSize > 0 && j < BlockCount(|s|, blockSize)
    ensures |b| == BlockSize(|s|, blockSize, j)
  {
    BlocksFit(|s|, blockSize, j);
    s[BlockStart(j, blockSize)..BlockStart(j, blockSize) + BlockSize(|s|, blockSize, j)]
  }

  // ----- the header -----

  /** Bits 0 and 2: filter; bit 1: plain copy; bit 4: blocks are not split. */
  function LowFlags(filter: Filter, memcpyed: bool, dontSplit: bool): (f: byte)
    ensures f < 32 && f / 8 % 2 == 0
    ensures f / 2 % 2 == 1 <==> memcpyed
    ensures f / 16 % 2 == 1 <==> dontSplit
    ensures FilterOf(f) == filter
  {
    match (filter, memcpyed, dontSplit)
    case (NoFilter, false, false) => 0
    case (NoFilter, false, true) => 16
    case (NoFilter, true, false) => 2
    case (NoFilter, true, true) => 18
    case (ByteShuffle, false, false) => 1
    case (ByteShuffle, false, true) => 17
    case (ByteShuffle, true, false) => 3
    case (ByteShuffle, true, true) => 19
    case (BitShuffle, false, false) => 4
    case (BitShuffle, false, true) => 20
    case (BitShuffle, true, false) => 6
    case (BitShuffle, true, true) => 22
    case (BothShuffles, false, false) => 5
    case (BothShuffles, false, true) => 21
    case (BothShuffles, true, false) => 7
    case (BothShuffles, true, true) => 23
  }

  /** From bit 5 on: format. */
  function Flags(l: Layout, memcpyed: bool): (f: byte)
    requires l.format <= 4
  {
    LowFlags(l.filter, memcpyed, l.dontSplit) + 32 * l.format
  }

  /** Every field can be read back from the flags. */
  lemma {:induction false} FlagsRead(l: Layout, memcpyed: bool)
    requires l.format <= 4
    ensures var f := Flags(l, memcpyed);
      && f / 32 == l.format && f / 8 % 2 == 0 && (f / 2 % 2 == 1 <==> memcpyed)
      && (f / 16 % 2 == 1 <==> l.dontSplit) && FilterOf(f) == l.filter
  {
    hide LowFlags;
    HighFlags(LowFlags(l.filter, memcpyed, l.dontSplit), l.format);
  }

  lemma {:induction false} HighFlags(low: byte, format: nat)
    requires low < 32 && format <= 4
    ensures (low + 32 * format) / 32 == format && (low + 32 * format) / 2 % 2 == low / 2 % 2 && (low + 32 * format) / 8 % 2 == low / 8 % 2
    ensures (low + 32 * format) / 16 % 2 == low / 16 % 2 && FilterOf(low + 32 * format) == FilterOf(low)
  {
    assert (low + 32 * format) / 2 == low / 2 + 16 * format;
    assert (low + 32 * format) / 4 == low / 4 + 8 * format;
    assert (low + 32 * format) / 8 == low / 8 + 4 * format;
    assert (low + 32 * format) / 16 == low / 16 + 2 * format;
  }

  function FilterOf(flags: byte): Filter {
    if flags % 2 == 1 then (if flags / 4 % 2 == 1 then BothShuffles else ByteShuffle)
    else if flags / 4 % 2 == 1 then BitShuffle else NoFilter
  }

  /** The 16 header bytes. */
  ghost predicate HeaderOk(chunk: seq<byte>, l: Layout, memcpyed: bool, nbytes: nat, cbytes: nat) {
    && |chunk| >= 16 && l.format <= 4 && l.typeSize <= MAX_TYPESIZE
    && chunk[0] == VERSION_FORMAT && chunk[1] == 1 && chunk[2] == Flags(l, memcpyed) && chunk[3] == l.typeSize
    && Le32(chunk[4..]) == nbytes && Le32(chunk[8..]) == l.blockSize && Le32(chunk[12..]) == cbytes
  }

  /** The start of block `j` as the chunk records it, counted from the beginning of the chunk. */
  function Start(chunk: seq<byte>, j: nat): nat
    requires 16 + 4 * j + 4 <= |chunk|
  {
    Le32(chunk[16 + 4 * j..])
  }

  /** The `len` bytes at `start` encode `block`. */
  ghost predicate BlockIn(libs: Libraries, l: Layout, chunk: seq<byte>, start: nat, len: nat, block: seq<byte>, leftover: bool) {
    start + len <= |chunk| && BlockOk(libs, l, chunk[start..start + len], block, leftover)
  }

  /** Block `j` of `src` is encoded at the recorded start, behind the index and inside the chunk. */
  ghost predicate HoldsBlock(libs: Libraries, l: Layout, chunk: seq<byte>, src: seq<byte>, j: nat)
    requires l.blockSize > 0 && j < BlockCount(|src|, l.blockSize) && 16 + 4 * BlockCount(|src|, l.blockSize) <= |chunk|
  {
    && 16 + 4 * BlockCount(|src|, l.blockSize) <= Start(chunk, j)
    && exists len: nat :: BlockIn(libs, l, chunk, Start(chunk, j), len, Block(src, l.blockSize, j), IsLeftover(|src|, l.blockSize, j))
  }

  ghost predicate HoldsBlocks(libs: Libraries, l: Layout, chunk: seq<byte>, src: seq<byte>)
    requires l.blockSize > 0
  {
    && 16 + 4 * BlockCount(|src|, l.blockSize) + 4 <= |chunk|
    && forall j: nat :: j < BlockCount(|src|, l.blockSize) ==> HoldsBlock(libs, l, chunk, src, j)
  }

  /** A chunk that holds `src`: copied behind the header, or every block encoded where its start says. */
  ghost predicate Holds(libs: Libraries, l: Layout, memcpyed: bool, chunk: seq<byte>, src: seq<byte>) {
    && l.typeSize > 0 && 0 < l.blockSize <= MAX_BLOCKSIZE && (|src| > 0 ==> l.blockSize <= |src|)
    && |src| <= MAX_BUFFERSIZE && |chunk| < 0x8000_0000 && HeaderOk(chunk, l, memcpyed, |src|, |chunk|)
    && (if memcpyed then chunk[16..] == src else HoldsBlocks(libs, l, chunk, src))
  }
}
