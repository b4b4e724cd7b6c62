// What the container promises: compressing and decompressing restores the buffer, a buffer with 16
// spare bytes always takes the chunk, and any range of items can be read on its own; as long as the
// sums of sizes stay below 2^31. And what is lost where writer and reader do not split alike.

module ChunkRoundTrip {
  import opened Bytes
  import opened Chunk
  import opened ChunkWriter
  import opened ChunkReader
  import BloscLzFormat
  import ChunkUnique
  import Lz4Format

  /** Compression followed by decompression, for every level, filter, type size, codec and block size. */
  method RoundTrip(libs: Libraries, clevel: int, doshuffle: int, typeSize: int, src: seq<byte>, dest: array<byte>, destsize: nat,
                   codec: CompCode, forced: nat, mode: SplitMode, back: array<byte>)
    returns (r: int, n: int, overrun: bool)
    requires Meets(libs) && destsize <= dest.Length && |src| <= back.Length && dest != back
    requires 0 <= clevel <= 9 && typeSize > 0 ==>
      var l := LayoutFor(codec, clevel, doshuffle, typeSize, |src|, forced, mode); SafeMode(mode, l.typeSize, l.blockSize)
    modifies dest, back
    ensures !overrun ==> r <= destsize && r <= |src| + MAX_OVERHEAD
    ensures !overrun && r > 0 ==> n == |src| && back[..n] == src
    ensures !overrun && destsize >= |src| + MAX_OVERHEAD && |src| <= MAX_BUFFERSIZE && 0 <= clevel <= 9 && 0 <= doshuffle <= 2 && typeSize > 0 ==> r > 0
    ensures overrun ==> Tries(clevel, doshuffle, typeSize, |src|, destsize)
    ensures Tries(clevel, doshuffle, typeSize, |src|, destsize) ==>
      && (destsize < 20 ==> overrun)
      && (destsize >= 20 && SumsFit(libs, codec, LayoutFor(codec, clevel, doshuffle, typeSize, |src|, forced, mode), |src|, Room(|src|, destsize)) ==> !overrun)
  {
    hide Meets, Holds, LayoutFor, SafeMode, SumsFit, RawBlocks, StubbornBlocks;
    ghost var l, memcpyed, raw;
    var behind;
    n := 0;
    r, overrun, behind, l, memcpyed, raw := Compress(libs, clevel, doshuffle, typeSize, src, dest, destsize, codec, forced, mode);
    if !overrun && r > 0 {
      Readable(libs, l, memcpyed, dest[..r], src);
      var astray;
      Fitting(libs, l, memcpyed, dest[..r], src);
      n, astray := Decompress(libs, dest[..r], back, |src|, l, memcpyed, src);
    }
  }

  lemma {:induction false} Readable(libs: Libraries, l: Layout, memcpyed: bool, chunk: seq<byte>, src: seq<byte>)
    requires Holds(libs, l, memcpyed, chunk, src)
    ensures 16 <= |chunk| < 0x8000_0000 && ReadHeader(chunk).cbytes == |chunk| && ReadHeader(chunk).typeSize == l.typeSize
  {
    hide HoldsBlocks, LoadInt32;
    HeaderRead(libs, l, memcpyed, chunk, src);
  }

  lemma {:induction false} Fitting(libs: Libraries, l: Layout, memcpyed: bool, chunk: seq<byte>, src: seq<byte>)
    requires Holds(libs, l, memcpyed, chunk, src)
    ensures Int32(|src|) == |src|
  {
    hide HoldsBlocks, HeaderOk;
  }

  /** Items read from a compressed buffer are the same bytes of the decompressed one. */
  method ItemsRoundTrip(libs: Libraries, clevel: int, doshuffle: int, typeSize: int, src: seq<byte>, dest: array<byte>, destsize: nat,
                        codec: CompCode, forced: nat, mode: SplitMode, start: int, nitems: nat, items: array<byte>)
    returns (r: int, n: int, overrun: bool)
    requires Meets(libs) && destsize <= dest.Length && dest != items && src != []
    requires 0 <= clevel <= 9 && typeSize > 0 ==>
      var l := LayoutFor(codec, clevel, doshuffle, typeSize, |src|, forced, mode); SafeMode(mode, l.typeSize, l.blockSize)
    requires start <= INT_MAX && nitems <= INT_MAX && ItemBytes(nitems, ItemSize(typeSize)) <= items.Length
    modifies dest, items
    ensures !overrun && r > 0 ==>
      if Outside(start, nitems, ItemSize(typeSize), |src|) then Refuses(start, nitems, ItemSize(typeSize), |src|) ==> n == -1
      else
        && 0 <= ItemBytes(start, ItemSize(typeSize)) <= ItemBytes(start + nitems, ItemSize(typeSize)) && 0 <= n <= items.Length
        && n == ItemBytes(nitems, ItemSize(typeSize))
        && items[..n] == src[ItemBytes(start, ItemSize(typeSize))..ItemBytes(start + nitems, ItemSize(typeSize))]
    ensures overrun ==> Tries(clevel, doshuffle, typeSize, |src|, destsize)
    ensures Tries(clevel, doshuffle, typeSize, |src|, destsize) && destsize >= 20 ==>
      SumsFit(libs, codec, LayoutFor(codec, clevel, doshuffle, typeSize, |src|, forced, mode), |src|, Room(|src|, destsize)) ==> !overrun
  {
    hide Meets, Holds, SafeMode, ItemBytes, SumsFit, RawBlocks, StubbornBlocks, Refuses, ComputeBlockSize, SplitBlock;
    ghost var l, memcpyed, raw;
    var behind, astray;
    n := 0;
    r, overrun, behind, l, memcpyed, raw := Compress(libs, clevel, doshuffle, typeSize, src, dest, destsize, codec, forced, mode);
    if !overrun && r > 0 {
      Readable(libs, l, memcpyed, dest[..r], src);
      n, astray := GetItem(libs, dest[..r], start, nitems, items, l, memcpyed, src);
    }
  }

  /** The type size that the chunk records. */
  function ItemSize(typeSize: int): nat {
    if 0 < typeSize <= MAX_TYPESIZE then typeSize else 1
  }

  // ----- what a chunk holds -----

  /** Buffers with the same first blocks begin alike. */
  lemma {:induction false} SameBlocks(a: seq<byte>, b: seq<byte>, blockSize: nat, j: nat)
    requires |a| == |b| && blockSize > 0 && j <= BlockCount(|a|, blockSize)
    requires forall k: nat :: k < j ==> Block(a, blockSize, k) == Block(b, blockSize, k)
    ensures var e := if j < BlockCount(|a|, blockSize) then BlockStart(j, blockSize) else |a|; e <= |a| && a[..e] == b[..e]
  {
    hide BlockCount, BlockStart, BlockSize;
    NextStart(0, blockSize);
    NoBlocks(|a|, blockSize);
    if j < BlockCount(|a|, blockSize) {
      BlocksFit(|a|, blockSize, j);
    }
    if j > 0 {
      SameBlocks(a, b, blockSize, j - 1);
      Advance(|a|, blockSize, j - 1);
      var lo := BlockStart(j - 1, blockSize);
      var hi := lo + BlockSize(|a|, blockSize, j - 1);
      assert Block(a, blockSize, j - 1) == a[lo..hi] && Block(b, blockSize, j - 1) == b[lo..hi];
      assert a[..hi] == a[..lo] + a[lo..hi] && b[..hi] == b[..lo] + b[lo..hi];
    } else {
      assert a[..0] == b[..0];
    }
  }

  /** A chunk holds at most one buffer, in one layout. */
  lemma {:induction false} HoldsOne(libs: Libraries, l: Layout, m: Layout, copied: bool, copied': bool, chunk: seq<byte>, a: seq<byte>, b: seq<byte>)
    requires Holds(libs, l, copied, chunk, a) && Holds(libs, m, copied', chunk, b)
    ensures a == b && l == m && copied == copied'
  {
    hide Holds, HoldsBlock, LoadInt32, FilterOf, BlockCount, Block;
    HeaderRead(libs, l, copied, chunk, a);
    HeaderRead(libs, m, copied', chunk, b);
    Content(libs, l, copied, chunk, a);
    Content(libs, m, copied', chunk, b);
    if !copied {
      forall j: nat | j < BlockCount(|a|, l.blockSize)
        ensures Block(a, l.blockSize, j) == Block(b, l.blockSize, j)
      {
        assert HoldsBlock(libs, l, chunk, a, j) && HoldsBlock(libs, l, chunk, b, j);
        ChunkUnique.HeldOnce(libs, l, chunk, a, b, j);
      }
      SameBlocks(a, b, l.blockSize, BlockCount(|a|, l.blockSize));
      assert a[..|a|] == a && b[..|b|] == b;
    }
  }

  // ----- where writer and reader do not split alike -----

  /** The first of the splits was compressed, so it is shorter than the split it stands for. */
  ghost predicate FirstCompressed(b: seq<byte>, ne: nat) {
    |b| >= 4 && Le32(b) < ne
  }

  /** Read as a single split, the first of several expands to too few bytes. */
  lemma {:induction false} TooFewBytes(libs: Libraries, l: Layout, chunk: seq<byte>, at: nat, len: nat, block: seq<byte>, leftover: bool)
    requires l.format <= 1 && l.typeSize > 0 && at + len <= |chunk| < 0x8000_0000 && WriterSplits(l, leftover) > 1 && Cut(l, |block|, leftover)
    requires EncodedIn(libs, l, chunk[at..at + len], block, WriterSplits(l, leftover))
    requires FirstCompressed(chunk[at..at + len], SplitSize(l, |block|, leftover))
    ensures WrongLength(l.format, chunk, at, |block|)
  {
    hide SplitsOk, Filtered, Le32, Lz4Format.Strict, Lz4Format.Expand, BloscLzFormat.Decode, LoadInt32, WriterSplits;
    var b, k, ne := chunk[at..at + len], WriterSplits(l, leftover), SplitSize(l, |block|, leftover);
    var data :| |data| == |block| && Filtered(l.filter, l.typeSize, data, block) && SplitsOk(libs, l.format, b, data, ne, k);
    FirstSplit(libs, l.format, chunk, at, b, data, ne, k);
    Le32Prefix(b, chunk[at + len..]);
    assert chunk[at..] == b + chunk[at + len..];
    PlainLoad(chunk[at..]);
    SplitAtMost(l, |block|, leftover);
    if l.format == 0 {
      BloscLzFormat.DecodesInMore(chunk[at + 4..at + 4 + LoadInt32(chunk[at..])], ne, |block|);
    }
  }

  lemma {:induction false} PlainLoad(s: seq<byte>)
    requires |s| >= 4 && LoadInt32(s) >= 0
    ensures LoadInt32(s) == Le32(s)
  {
  }

  /** A block that the writer splits and the reader does not, compressed with BloscLZ, LZ4 or LZ4HC: unless its first
      split was stored raw, reading it back fails. */
  method SplitsRefused(libs: Libraries, p: Params, block: seq<byte>, ntbytes: nat, dest: array<byte>) returns (o: Outcome, status: int)
    requires Meets(libs) && 1 <= p.clevel <= 9 && p.layout.format == Format(p.codec) <= 1 && 4 <= dest.Length <= INT_MAX && ntbytes <= INT_MAX
    requires block != [] && |block| <= MAX_BLOCKSIZE && p.layout.typeSize > 0 && Cut(p.layout, |block|, false)
    requires WriterSplits(p.layout, false) != Splits(p.layout, |block|, false)
    modifies dest
    ensures o.Stored? ==> ntbytes + o.size <= dest.Length
    ensures o.Stored? && FirstCompressed(dest[ntbytes..ntbytes + o.size], SplitSize(p.layout, |block|, false)) ==> status == -2
  {
    hide Meets, EncodedIn, RawSplits, Stubborn, Want, Cut, WrongLength, FirstCompressed;
    ghost var raw;
    OneSplit(|block|);
    o, raw := CompressBlock(libs, p, block, false, ntbytes, dest.Length, dest);
    status := 0;
    if o.Stored? {
      var read := DecompressBlock(libs, p.layout, dest[..], ntbytes, |block|, false, 0, []);
      status := if read.Failed? then read.code else 0;
      if FirstCompressed(dest[ntbytes..ntbytes + o.size], SplitSize(p.layout, |block|, false)) {
        TooFewBytes(libs, p.layout, dest[..], ntbytes, o.size, block, false);
      }
    }
  }

  /** So with the split mode ALWAYS 2176 bytes of 17-byte elements that one of these codecs compresses are lost. */
  method AlwaysSplitLoses(libs: Libraries, codec: CompCode, block: seq<byte>, dest: array<byte>) returns (o: Outcome, status: int)
    requires Meets(libs) && Format(codec) <= 1 && |block| == 2176 && dest.Length == 2192
    modifies dest
    ensures o.Stored? ==> 20 + o.size <= dest.Length
    ensures o.Stored? && FirstCompressed(dest[20..20 + o.size], 128) ==> status == -2
  {
    hide Meets, EncodedIn, FirstCompressed, LayoutFor, Cut, SplitSize, WriterSplits, Splits;
    AlwaysSplitDisagrees(codec);
    var l := LayoutFor(codec, 5, 0, 17, 2176, 0, AlwaysSplit);
    o, status := SplitsRefused(libs, Params(5, codec, l), block, 20, dest);
  }
}
