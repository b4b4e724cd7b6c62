// Decompression of a chunk in one thread (blosc_d, serial_blosc, blosc_run_decompression_with_context)
// and of a part of it (blosc_getitem).

module ChunkReader {
  import opened Bytes
  import opened CopyKernels
  import opened Stores
  import opened Chunk
  import BloscLzDecoder
  import BloscLzFormat
  import ChunkUnique
  import Lz4Decoder
  import Lz4Format
  import Shuffle
  import Bitshuffle

  /** sw32_: a signed 32-bit load. */
  function LoadInt32(s: seq<byte>): (v: int)
    requires |s| >= 4
    ensures -0x8000_0000 <= v <= INT_MAX
  {
    if Le32(s) < 0x8000_0000 then Le32(s) else Le32(s) - 0x1_0000_0000
  }

  /** What reading a split or a block leads to: its bytes; an error; or stores outside of it, where the model stops. */
  datatype Read = Got(bytes: seq<byte>) | Failed(code: int) | Strayed

  /** Errors are -1, for what cannot be there, and -2, for what has the wrong length; only a long stream leads BloscLZ astray. */
  ghost predicate Sober(format: nat, n: nat, r: Read) {
    && (r.Failed? ==> r.code == -1 || r.code == -2)
    && (r.Strayed? ==> format == 0 && n >= BloscLzDecoder.MISLEADING)
  }

  /** The decompression function chosen by initialize_decompress_func. A result of another length than asked
      for is an error to the caller. */
  method DecompressSplit(libs: Libraries, format: nat, z: seq<byte>, n: nat, ghost s: seq<byte>) returns (out: seq<byte>, astray: bool)
    requires format <= 4 && |z| <= INT_MAX && n <= INT_MAX
    ensures |s| == n && Stands(libs, format, z, s) ==> out == s && !astray
    ensures format == 0 && BloscLzFormat.Decode(z, n) != [] ==> out == BloscLzFormat.Decode(z, n) && !astray
    ensures format == 1 && out != [] ==> Lz4Format.Expand(z, []) == Lz4Format.Some(out)
    ensures astray ==> format == 0 && |z| >= BloscLzDecoder.MISLEADING
  {
    hide Lz4Format.Expand, Lz4Format.Strict, BloscLzFormat.Decode, BloscLzDecoder.CodeDecode, BloscLzDecoder.MisledBy;
    out, astray := [], false;
    if format == 0 {
      var buf := new byte[n](_ => 0);
      if n == 0 || |z| < BloscLzDecoder.MISLEADING || BloscLzFormat.Decode(z, n) != [] {
        BloscLzDecoder.ShortAgrees(z, n);
      }
      var r;
      r, astray := BloscLzDecoder.Decompress(z, buf, n, 8);
      if !astray {
        out := buf[..r];
      }
    } else if format == 1 {
      var buf := new byte[n](_ => 0);
      var r := Lz4Decoder.Decompress(z, buf, n);
      if r >= 0 {
        out := buf[..r];
      }
    } else {
      var r := libs.decompress(format, z, n);
      if r.Some? {
        out := r.value;
      }
    }
  }

  /** The bytes from `offset` on hold the splits `b` of `data`. */
  ghost predicate Encodes(libs: Libraries, format: nat, chunk: seq<byte>, offset: int, b: seq<byte>, data: seq<byte>, ne: nat, k: nat) {
    && 0 <= offset && offset + |b| <= |chunk| < 0x8000_0000 && chunk[offset..offset + |b|] == b
    && SplitsOk(libs, format, b, data, ne, k)
  }

  /** The first split of what is left, taken off. */
  lemma {:induction false} FirstSplit(libs: Libraries, format: nat, chunk: seq<byte>, offset: int, b: seq<byte>, data: seq<byte>, ne: nat, k: nat)
    requires Encodes(libs, format, chunk, offset, b, data, ne, k) && k > 0
    ensures 0 <= offset && offset + 4 <= |chunk| && ne <= |data|
    ensures var c := LoadInt32(chunk[offset..]);
      && 0 <= c && offset + 4 + c <= |chunk| && 4 + c <= |b|
      && SplitOk(libs, format, chunk[offset + 4..offset + 4 + c], data[..ne])
      && Encodes(libs, format, chunk, offset + 4 + c, b[4 + c..], data[ne..], ne, k - 1)
  {
    hide SplitOk, Le32;
    var c := Le32(b);
    Le32Prefix(b, chunk[offset + |b|..]);
    assert chunk[offset..] == b + chunk[offset + |b|..];
    assert chunk[offset + 4..offset + 4 + c] == b[4..4 + c];
    assert chunk[offset + 4 + c..offset + |b|] == b[4 + c..];
  }

  /** At `offset` there is a compressed split of BloscLZ or LZ4 that decodes to another number of bytes than a reader expects. */
  ghost predicate WrongLength(format: nat, chunk: seq<byte>, offset: int, ne: nat) {
    && format <= 1 && 0 <= offset && offset + 4 <= |chunk|
    && var c := LoadInt32(chunk[offset..]);
    && 0 <= c != ne && offset + 4 + c <= |chunk|
    && WrongSize(format, chunk[offset + 4..offset + 4 + c], ne)
  }

  /** There is no room in the chunk for a split at `offset`, or for as many bytes as it says. */
  predicate Unframed(chunk: seq<byte>, offset: int) {
    offset < 0 || offset + 4 > |chunk| || (var c := LoadInt32(chunk[offset..]); c < 0 || offset + 4 + c > |chunk|)
  }

  ghost predicate WrongSize(format: nat, z: seq<byte>, ne: nat) {
    if format == 0 then BloscLzFormat.Decode(z, ne) != [] && |BloscLzFormat.Decode(z, ne)| != ne
    else Lz4Format.Expand(z, []).Some? && |Lz4Format.Expand(z, []).value| != ne
  }

  lemma {:induction false} WrongFirst(format: nat, chunk: seq<byte>, offset: int, ne: nat)
    requires WrongLength(format, chunk, offset, ne)
    ensures 0 <= offset && offset + 4 <= |chunk|
    ensures var c := LoadInt32(chunk[offset..]);
      0 <= c != ne && offset + 4 + c <= |chunk| && WrongSize(format, chunk[offset + 4..offset + 4 + c], ne)
  {
    hide WrongSize;
  }

  /** One turn of the split loop: the bytes of a split, raw or decompressed. */
  method ReadSplit(libs: Libraries, format: nat, z: seq<byte>, ne: nat, ghost s: seq<byte>) returns (r: Read)
    requires format <= 4 && |z| <= INT_MAX && ne <= INT_MAX
    ensures |s| == ne && SplitOk(libs, format, z, s) ==> r == Got(s)
    ensures r.Got? ==> |r.bytes| == ne
    ensures format <= 1 && ne > 0 && |z| != ne && WrongSize(format, z, ne) ==> r == Failed(-2)
    ensures Sober(format, |z|, r)
  {
    hide Stands;
    if |z| == ne {
      return Got(z);
    }
    var out, astray := DecompressSplit(libs, format, z, ne, s);
    r := if astray then Strayed else if |out| != ne then Failed(-2) else Got(out);
  }

  /** The split loop of blosc_d. */
  method ReadSplits(libs: Libraries, format: nat, chunk: seq<byte>, offset0: int, ne: nat, nsplits: nat, ghost b: seq<byte>, ghost data: seq<byte>)
    returns (r: Read)
    requires format <= 4 && 4 <= |chunk| <= INT_MAX && ne <= INT_MAX
    ensures Encodes(libs, format, chunk, offset0, b, data, ne, nsplits) ==> r == Got(data)
    ensures r.Got? ==> |r.bytes| == Times(nsplits, ne)
    ensures nsplits > 0 && ne > 0 && WrongLength(format, chunk, offset0, ne) ==> r == Failed(-2)
    ensures nsplits > 0 && Unframed(chunk, offset0) ==> r == Failed(-1)
    ensures Sober(format, |chunk|, r)
  {
    hide Encodes, Stands, SplitsOk, WrongLength, LoadInt32, WrongSize, SplitOk;
    ghost var wrong := nsplits > 0 && ne > 0 && WrongLength(format, chunk, offset0, ne);
    if wrong {
      assert format <= 1 by {
        ShortFormat(format, chunk, offset0, ne);
      }
    }
    var offset, out := offset0, [];
    var j := 0;
    ghost var good := Encodes(libs, format, chunk, offset0, b, data, ne, nsplits);
    ghost var restB, restData := b, data;
    while j < nsplits
      invariant if j == 0 then offset == offset0 else !wrong && !Unframed(chunk, offset0)
      invariant j <= nsplits && |out| == Times(j, ne) && good == Encodes(libs, format, chunk, offset0, b, data, ne, nsplits)
      invariant good ==> Encodes(libs, format, chunk, offset, restB, restData, ne, nsplits - j) && out + restData == data
    {
      if good {
        FirstSplit(libs, format, chunk, offset, restB, restData, ne, nsplits - j);
      }
      if wrong {
        WrongFirst(format, chunk, offset, ne);
      }
      if offset < 0 || offset > |chunk| - 4 {
        return Failed(-1);
      }
      var cbytes := LoadInt32(chunk[offset..]);
      offset := offset + 4;
      if cbytes < 0 || cbytes > |chunk| - offset {
        return Failed(-1);
      }
      r := ReadSplit(libs, format, chunk[offset..offset + cbytes], ne, if good then restData[..ne] else []);
      if !r.Got? {
        return;
      }
      if good {
        assert out + restData == out + r.bytes + restData[ne..];
        restB, restData := restB[4 + cbytes..], restData[ne..];
      }
      out := out + r.bytes;
      offset := offset + cbytes;
      j := j + 1;
    }
    if good {
      NothingLeft(libs, format, chunk, offset, restB, restData, ne);
    }
    r := Got(out);
  }

  lemma {:induction false} ShortFormat(format: nat, chunk: seq<byte>, offset: int, ne: nat)
    requires WrongLength(format, chunk, offset, ne)
    ensures format <= 1
  {
  }

  lemma {:induction false} NothingLeft(libs: Libraries, format: nat, chunk: seq<byte>, offset: int, b: seq<byte>, data: seq<byte>, ne: nat)
    requires Encodes(libs, format, chunk, offset, b, data, ne, 0)
    ensures data == []
  {
  }

  /** The filter undone. */
  method UnfilterBlock(f: Filter, typeSize: nat, data: seq<byte>, ghost block: seq<byte>) returns (out: seq<byte>)
    requires typeSize > 0
    ensures |out| == |data| && (|block| == |data| && Filtered(f, typeSize, data, block) ==> out == block)
  {
    hide Shuffle.Shuffled, Bitshuffle.Bitshuffled, Shuffle.Unshuffled;
    match EffectiveFilter(f, typeSize, |data|) {
      case NoFilter =>
        out := data;
      case ByteShuffle =>
        var tmp := new byte[|data|](_ => 0);
        Shuffle.UnshuffleGeneric(typeSize, data, tmp);
        out := tmp[..|data|];
        if |block| == |data| && Filtered(f, typeSize, data, block) {
          Shuffle.UnshuffleShuffle(block, data, out, typeSize);
        }
      case BitShuffle =>
        var tmp, tmp2 := new byte[|data|](_ => 0), new byte[|data|](_ => 0);
        var bscount := Bitshuffle.BitunshuffleBlock(typeSize, data, tmp, tmp2, block);
        out := tmp[..|data|];
    }
  }

  /** blosc_d: the block of `size` bytes at `offset`, or an error. Whatever block is encoded there comes out. */
  method DecompressBlock(libs: Libraries, l: Layout, chunk: seq<byte>, offset: int, size: nat, leftover: bool, ghost len: nat, ghost block: seq<byte>)
    returns (r: Read)
    requires l.typeSize > 0 && l.format <= 4 && 4 <= |chunk| <= INT_MAX && size <= INT_MAX
    ensures |block| == size && 0 <= offset && BlockIn(libs, l, chunk, offset, len, block, leftover) ==> r == Got(block)
    ensures r.Got? ==> |r.bytes| <= size
    ensures size / Splits(l, size, leftover) > 0 && WrongLength(l.format, chunk, offset, size / Splits(l, size, leftover)) ==> r == Failed(-2)
    ensures Unframed(chunk, offset) ==> r == Failed(-1)
    ensures r.Got? && size > 0 ==> r.bytes != []
    ensures Sober(l.format, |chunk|, r)
  {
    hide Filtered, SplitsOk, Stands, WrongLength;
    ghost var data: seq<byte> := [];
    ghost var good := |block| == size && 0 <= offset && BlockIn(libs, l, chunk, offset, len, block, leftover);
    var nsplits := Splits(l, size, leftover);
    ghost var b: seq<byte> := [];
    if good {
      b := chunk[offset..offset + len];
      data :| |data| == |block| && Filtered(l.filter, l.typeSize, data, block) && SplitsOk(libs, l.format, b, data, |block| / nsplits, nsplits);
    }
    SplitsFit(size, nsplits);
    SplitsCount(l, size, leftover);
    r := ReadSplits(libs, l.format, chunk, offset, size / nsplits, nsplits, b, data);
    if r.Got? {
      var out := UnfilterBlock(l.filter, l.typeSize, r.bytes, block);
      r := Got(out);
    }
  }

  /** No block is cut into splits of nothing. */
  lemma {:induction false} SplitsCount(l: Layout, size: nat, leftover: bool)
    requires l.typeSize > 0
    ensures size > 0 ==> size / Splits(l, size, leftover) > 0
  {
    assert size / 1 == size;
  }

  lemma {:induction false} SplitsFit(size: nat, nsplits: nat)
    requires nsplits > 0
    ensures size / nsplits <= Times(nsplits, size / nsplits) <= size
  {
    TimesIsProduct(nsplits, size / nsplits);
    BlocksCover(size, nsplits);
    TimesIsProduct(size / nsplits, nsplits);
  }

  // ----- the header -----

  /** What a reader takes from the header. */
  datatype Header = Header(version: byte, compversion: byte, flags: byte, typeSize: nat, nbytes: int, blockSize: int, cbytes: int)

  function ReadHeader(chunk: seq<byte>): Header
    requires |chunk| >= 16
  {
    Header(chunk[0], chunk[1], chunk[2], chunk[3], LoadInt32(chunk[4..]), LoadInt32(chunk[8..]), LoadInt32(chunk[12..]))
  }

  function LayoutOf(h: Header): Layout
    requires h.blockSize >= 0
  {
    Layout(h.flags / 32, FilterOf(h.flags), h.typeSize, h.flags / 16 % 2 == 1, h.blockSize)
  }

  /** The header of a chunk that holds a buffer reads back as it was written. */
  lemma {:induction false} HeaderRead(libs: Libraries, l: Layout, memcpyed: bool, chunk: seq<byte>, src: seq<byte>)
    requires Holds(libs, l, memcpyed, chunk, src)
    ensures |chunk| >= 16
    ensures var h := ReadHeader(chunk);
      && h.version == VERSION_FORMAT && h.compversion == 1 && h.typeSize == l.typeSize && 0 < h.typeSize <= MAX_TYPESIZE
      && h.nbytes == |src| && h.blockSize == l.blockSize && h.cbytes == |chunk| && h.flags / 8 % 2 == 0 && h.flags / 32 <= 4
      && (h.flags / 2 % 2 == 1 <==> memcpyed) && LayoutOf(h) == l
  {
    hide HoldsBlocks, Le32, FilterOf;
    FlagsRead(l, memcpyed);
  }

  /** initialize_decompress_func: every format is at version 1. */
  function DecompressFunc(h: Header): int {
    if h.flags / 32 <= 4 then (if h.compversion == 1 then 0 else -9) else -5
  }

  // ----- the whole buffer -----

  /** What reading block `j` can lead to: anything sober where no block is encoded, and otherwise that block. */
  ghost predicate Delivers(libs: Libraries, l: Layout, chunk: seq<byte>, n: nat, j: nat, r: Read)
    requires l.blockSize > 0 && j < BlockCount(n, l.blockSize) && 16 + 4 * BlockCount(n, l.blockSize) <= |chunk|
  {
    && Sober(l.format, |chunk|, r) && (r.Got? ==> 0 < |r.bytes| <= BlockSize(n, l.blockSize, j))
    && forall src: seq<byte> :: |src| == n && HoldsBlock(libs, l, chunk, src, j) ==> r == Got(Block(src, l.blockSize, j))
  }

  lemma {:induction false} SomeBytes(n: nat, blockSize: nat, j: nat)
    requires blockSize > 0
    ensures BlockSize(n, blockSize, j) > 0
  {
    hide BlockCount;
  }

  lemma {:induction false} Delivered(libs: Libraries, l: Layout, chunk: seq<byte>, n: nat, j: nat, r: Read, src: seq<byte>)
    requires l.blockSize > 0 && j < BlockCount(n, l.blockSize) && 16 + 4 * BlockCount(n, l.blockSize) <= |chunk| && Delivers(libs, l, chunk, n, j, r)
    ensures (r.Failed? ==> r.code < 0) && (r.Strayed? ==> l.format == 0 && |chunk| >= BloscLzDecoder.MISLEADING)
    ensures r.Got? ==> 0 < |r.bytes| <= BlockSize(n, l.blockSize, j)
    ensures |src| == n && HoldsBlock(libs, l, chunk, src, j) ==> r == Got(Block(src, l.blockSize, j))
  {
    hide BlockCount, HoldsBlock, BlockSize, Block;
  }

  /** Block `j` of a chunk, decoded; it is the block of any buffer the chunk holds. */
  method ReadBlock(libs: Libraries, l: Layout, chunk: seq<byte>, n: nat, j: nat) returns (r: Read)
    requires l.typeSize > 0 && l.format <= 4 && 0 < l.blockSize <= INT_MAX && j < BlockCount(n, l.blockSize)
    requires 16 + 4 * BlockCount(n, l.blockSize) <= |chunk| <= INT_MAX
    ensures Delivers(libs, l, chunk, n, j, r)
  {
    hide BlockCount, BlockOk, Le32, BlockSize, IsLeftover, Block, HoldsBlock;
    ghost var len: nat, src: seq<byte>, block: seq<byte> := 0, [], [];
    ghost var held := exists s: seq<byte> :: |s| == n && HoldsBlock(libs, l, chunk, s, j);
    if held {
      src :| |src| == n && HoldsBlock(libs, l, chunk, src, j);
      block, len := Held(libs, l, chunk, src, j);
    }
    BlockSizeAtMost(n, l.blockSize, j);
    SomeBytes(n, l.blockSize, j);
    r := DecompressBlock(libs, l, chunk, LoadInt32(chunk[16 + 4 * j..]), BlockSize(n, l.blockSize, j), IsLeftover(n, l.blockSize, j), len, block);
    forall s: seq<byte> | |s| == n && HoldsBlock(libs, l, chunk, s, j)
      ensures r == Got(Block(s, l.blockSize, j))
    {
      ChunkUnique.HeldOnce(libs, l, chunk, src, s, j);
    }
  }

  lemma {:induction false} Held(libs: Libraries, l: Layout, chunk: seq<byte>, src: seq<byte>, j: nat) returns (block: seq<byte>, len: nat)
    requires l.blockSize > 0 && j < BlockCount(|src|, l.blockSize) && 16 + 4 * BlockCount(|src|, l.blockSize) <= |chunk| <= INT_MAX
    requires HoldsBlock(libs, l, chunk, src, j)
    ensures block == Block(src, l.blockSize, j) && LoadInt32(chunk[16 + 4 * j..]) >= 0
    ensures BlockIn(libs, l, chunk, LoadInt32(chunk[16 + 4 * j..]), len, block, IsLeftover(|src|, l.blockSize, j))
  {
    hide BlockCount, BlockOk, Le32, IsLeftover, Block;
    block := Block(src, l.blockSize, j);
    len :| BlockIn(libs, l, chunk, Start(chunk, j), len, block, IsLeftover(|src|, l.blockSize, j));
    StartInside(chunk, j, len);
  }

  lemma {:induction false} StartInside(chunk: seq<byte>, j: nat, len: nat)
    requires 16 + 4 * j + 4 <= |chunk| < 0x8000_0000 && Start(chunk, j) + len <= |chunk|
    ensures LoadInt32(chunk[16 + 4 * j..]) == Start(chunk, j)
  {
  }

  /** serial_blosc when the blocks were compressed. */
  method ReadBlocks(libs: Libraries, l: Layout, chunk: seq<byte>, dest: array<byte>, n: nat, ghost src: seq<byte>) returns (ntbytes: int, astray: bool)
    requires l.typeSize > 0 && l.format <= 4 && 0 < l.blockSize <= INT_MAX && n <= dest.Length
    requires 16 + 4 * BlockCount(n, l.blockSize) <= |chunk| <= INT_MAX
    modifies dest
    ensures |src| == n && HoldsBlocks(libs, l, chunk, src) ==> ntbytes == n && !astray && dest[..n] == src
    ensures astray ==> l.format == 0 && |chunk| >= BloscLzDecoder.MISLEADING
    ensures !astray ==> SameFrom(dest[..], old(dest[..]), n)
    ensures ntbytes <= n && (!astray && n > 0 ==> ntbytes != 0)
  {
    hide BlockCount, BlockStart, HoldsBlock, BlockSize, Block, Delivers;
    ntbytes, astray := 0, false;
    var j := 0;
    NextStart(0, l.blockSize);
    NoBlocks(n, l.blockSize);
    ghost var good, done: nat := |src| == n && HoldsBlocks(libs, l, chunk, src), 0;
    while j < BlockCount(n, l.blockSize)
      invariant j <= BlockCount(n, l.blockSize) && done <= n && good == (|src| == n && HoldsBlocks(libs, l, chunk, src))
      invariant (j < BlockCount(n, l.blockSize) ==> done == BlockStart(j, l.blockSize)) && (j == BlockCount(n, l.blockSize) ==> done == n)
      invariant good ==> ntbytes == done && dest[..done] == src[..done]
      invariant SameFrom(dest[..], old(dest[..]), n)
      invariant 0 <= ntbytes <= done && (j > 0 ==> ntbytes > 0)
    {
      Advance(n, l.blockSize, j);
      var r := ReadBlock(libs, l, chunk, n, j);
      Delivered(libs, l, chunk, n, j, r, src);
      match r {
        case Failed(code) => return code, false;
        case Strayed => return 0, true;
        case Got(_) =>
      }
      StoreAt(dest, BlockStart(j, l.blockSize), r.bytes);
      if good {
        assert HoldsBlock(libs, l, chunk, src, j);
        NextPiece(dest[..], src, l.blockSize, j, r.bytes);
      }
      j, ntbytes, done := j + 1, ntbytes + |r.bytes|, done + BlockSize(n, l.blockSize, j);
    }
    if good {
      assert src[..n] == src;
    }
  }

  lemma {:induction false} NextPiece(out: seq<byte>, src: seq<byte>, blockSize: nat, j: nat, bytes: seq<byte>)
    requires blockSize > 0 && j < BlockCount(|src|, blockSize) && bytes == Block(src, blockSize, j)
    requires var at := BlockStart(j, blockSize); at + |bytes| <= |out| && out[at..at + |bytes|] == bytes && at <= |src| && out[..at] == src[..at]
    ensures var e := BlockStart(j, blockSize) + BlockSize(|src|, blockSize, j); e <= |src| && |bytes| == BlockSize(|src|, blockSize, j) && out[..e] == src[..e]
  {
    hide BlockCount, BlockStart;
    BlocksFit(|src|, blockSize, j);
    var at, e := BlockStart(j, blockSize), BlockStart(j, blockSize) + |bytes|;
    assert out[..e] == out[..at] + out[at..e];
    assert src[..e] == src[..at] + src[at..e];
  }

  /** The tests in front of the job: a result that needs no job, or none. The destination size is cast to 32 bits
      in the last of them. */
  function EarlyResult(h: Header, destsize: nat): (r: Lz4Format.Option<int>)
    requires h.cbytes >= MAX_OVERHEAD
    ensures r == Lz4Format.None ==> 0 < h.blockSize <= MAX_BLOCKSIZE && 0 < h.typeSize <= MAX_TYPESIZE && 0 < h.nbytes <= Int32(destsize)
    ensures r == Lz4Format.None ==> if h.flags / 2 % 2 == 1 then h.nbytes + MAX_OVERHEAD == h.cbytes
      else h.flags / 32 <= 4 && BlockCount(h.nbytes, h.blockSize) <= (h.cbytes - 16) / 4
  {
    if h.nbytes == 0 then Lz4Format.Some(0)
    else if h.blockSize <= 0 || h.blockSize > destsize || h.blockSize > MAX_BLOCKSIZE || h.typeSize <= 0 || h.typeSize > MAX_TYPESIZE then Lz4Format.Some(-1)
    else if h.version != VERSION_FORMAT || h.flags / 8 % 2 == 1 then Lz4Format.Some(-1)
    else if h.nbytes > Int32(destsize) then Lz4Format.Some(-1)
    else if h.flags / 2 % 2 == 1 then (if h.nbytes + MAX_OVERHEAD != h.cbytes then Lz4Format.Some(-1) else Lz4Format.None)
    else if DecompressFunc(h) != 0 then Lz4Format.Some(DecompressFunc(h))
    else if h.nbytes < 0 then
      // A damaged size: there are no blocks to read.
      Lz4Format.Some(0)
    else if BlockCount(h.nbytes, h.blockSize) > (h.cbytes - 16) / 4 then Lz4Format.Some(-1)
    else Lz4Format.None
  }

  lemma {:induction false} EarlyCodes(h: Header, destsize: nat)
    requires h.cbytes >= 16
    ensures var e := EarlyResult(h, destsize);
      if h.nbytes == 0 then e == Lz4Format.Some(0)
      else if h.version != 2 || h.flags / 8 % 2 == 1 || h.typeSize == 0 || h.blockSize <= 0 || h.nbytes > Int32(destsize) then e == Lz4Format.Some(-1)
      else e.Some? ==> e.value == -1 || (e.value == -5 && h.flags / 32 > 4) || (e.value == -9 && h.compversion != 1) || (h.nbytes < 0 && e.value == 0)
  {
    hide Int32, BlockCount;
  }

  /** A held buffer passes the tests exactly when it fits the destination size as the cast leaves it. */
  lemma {:induction false} Passes(libs: Libraries, l: Layout, memcpyed: bool, chunk: seq<byte>, src: seq<byte>, destsize: nat)
    requires Holds(libs, l, memcpyed, chunk, src)
    ensures |chunk| >= 16 && ReadHeader(chunk).cbytes >= MAX_OVERHEAD
    ensures var e := EarlyResult(ReadHeader(chunk), destsize);
      if src == [] then e == Lz4Format.Some(0) else if |src| <= Int32(destsize) then e == Lz4Format.None else e == Lz4Format.Some(-1)
    ensures destsize <= INT_MAX ==> Int32(destsize) == destsize
  {
    hide Holds, HoldsBlocks, LoadInt32, FilterOf, BlockCount, ReadHeader;
    HeaderRead(libs, l, memcpyed, chunk, src);
    Content(libs, l, memcpyed, chunk, src);
  }

  /** blosc_run_decompression_with_context with one thread: a chunk gives back the buffer it holds exactly when that
      fits the destination size cast to 32 bits, which for sizes below 2^31 is the size itself. */
  method Decompress(libs: Libraries, chunk: seq<byte>, dest: array<byte>, destsize: nat, ghost l: Layout, ghost memcpyed: bool, ghost src: seq<byte>)
    returns (r: int, astray: bool)
    requires 16 <= |chunk| <= INT_MAX && ReadHeader(chunk).cbytes == |chunk| && destsize <= dest.Length
    modifies dest
    ensures Holds(libs, l, memcpyed, chunk, src) ==> !astray
    ensures Holds(libs, l, memcpyed, chunk, src) ==>
      if |src| <= Int32(destsize) || src == [] then r == |src| <= dest.Length && dest[..r] == src else r == -1
    ensures astray ==> ReadHeader(chunk).flags / 32 == 0 && |chunk| >= BloscLzDecoder.MISLEADING
    ensures !astray ==> SameFrom(dest[..], old(dest[..]), destsize)
    ensures var h := ReadHeader(chunk);
      if h.nbytes == 0 then r == 0
      else if h.version != 2 || h.flags / 8 % 2 == 1 || h.typeSize == 0 || h.blockSize <= 0 || h.nbytes > Int32(destsize) then r == -1
      else !astray ==> r == -1 || (r == -5 && h.flags / 32 > 4) || (r == -9 && h.compversion != 1) || 0 < r <= h.nbytes || (h.nbytes < 0 && r <= 0)
  {
    hide Holds, HoldsBlocks, LoadInt32, FilterOf, EarlyResult, BlockCount;
    ghost var good := Holds(libs, l, memcpyed, chunk, src);
    var h := ReadHeader(chunk);
    if good {
      HeaderRead(libs, l, memcpyed, chunk, src);
      Content(libs, l, memcpyed, chunk, src);
      Passes(libs, l, memcpyed, chunk, src, destsize);
    }
    astray := false;
    EarlyCodes(h, destsize);
    var early := EarlyResult(h, destsize);
    if early.Some? {
      assert src == [] ==> dest[..0] == src;
      return early.value, astray;
    }
    if h.flags / 2 % 2 == 1 {
      r := CopyByBlocks(chunk[MAX_OVERHEAD..MAX_OVERHEAD + h.nbytes], dest, 0, h.blockSize);
    } else {
      r, astray := ReadBlocks(libs, LayoutOf(h), chunk, dest, h.nbytes, src);
      if r < 0 {
        return -1, astray;
      }
    }
  }

  /** A destination size of 2^31, however large the destination is, is too small for every chunk but an empty buffer's. */
  method DecompressHuge(libs: Libraries, chunk: seq<byte>, dest: array<byte>, ghost l: Layout, ghost memcpyed: bool, ghost src: seq<byte>) returns (r: int)
    requires Holds(libs, l, memcpyed, chunk, src) && dest.Length >= 0x8000_0000
    modifies dest
    ensures r == if src == [] then 0 else -1
  {
    hide Holds, HoldsBlocks, LoadInt32;
    HeaderRead(libs, l, memcpyed, chunk, src);
    Content(libs, l, memcpyed, chunk, src);
    assert Int32(0x8000_0000) == -0x8000_0000;
    var astray;
    r, astray := Decompress(libs, chunk, dest, 0x8000_0000, l, memcpyed, src);
  }

  /** What a chunk holds, behind its header. */
  lemma {:induction false} Content(libs: Libraries, l: Layout, memcpyed: bool, chunk: seq<byte>, src: seq<byte>)
    requires Holds(libs, l, memcpyed, chunk, src)
    ensures 0 < l.blockSize <= MAX_BLOCKSIZE && l.typeSize > 0 && (src != [] ==> l.blockSize <= |src|) && |chunk| < 0x8000_0000
    ensures memcpyed ==> |chunk| == 16 + |src| && chunk[16..] == src
    ensures !memcpyed ==> HoldsBlocks(libs, l, chunk, src) && BlockCount(|src|, l.blockSize) < (|chunk| - 16) / 4
  {
    hide HoldsBlock, BlockCount, Le32, LowFlags;
  }

  // ----- part of the buffer -----

  /** A position moved into an interval. */
  function Clamp(x: int, lo: int, hi: int): (y: int)
    requires lo <= hi
    ensures lo <= y <= hi
  {
    if x < lo then lo else if x > hi then hi else x
  }

  /** One block's contribution to blosc_getitem. */
  method ItemBlock(libs: Libraries, h: Header, chunk: seq<byte>, n: nat, j: nat, startb: nat, stopb: nat, ghost l: Layout, ghost memcpyed: bool, ghost src: seq<byte>)
    returns (r: Read)
    requires h == ReadHeaderOr(chunk) && n == h.nbytes && 0 < h.blockSize <= INT_MAX && h.typeSize > 0 && (h.flags / 2 % 2 == 1 || h.flags / 32 <= 4) && j < BlockCount(n, h.blockSize)
    requires 16 <= |chunk| <= INT_MAX && startb <= stopb <= h.blockSize
    requires if h.flags / 2 % 2 == 1 then |chunk| == 16 + n else 16 + 4 * BlockCount(n, h.blockSize) <= |chunk|
    requires BlockStart(j, h.blockSize) + stopb <= n
    ensures Holds(libs, l, memcpyed, chunk, src) && |src| == n ==> r == Got(src[BlockStart(j, h.blockSize) + startb..BlockStart(j, h.blockSize) + stopb])
    ensures r.Got? ==> |r.bytes| == stopb - startb
    ensures Sober(h.flags / 32, |chunk|, r)
  {
    hide BlockCount, BlockStart, Holds, HoldsBlock, LoadInt32, FilterOf, BlockSize, Block;
    ghost var good := Holds(libs, l, memcpyed, chunk, src) && |src| == n;
    if good {
      HeaderRead(libs, l, memcpyed, chunk, src);
      Content(libs, l, memcpyed, chunk, src);
    }
    ghost var at := BlockStart(j, h.blockSize);
    if h.flags / 2 % 2 == 1 {
      r := Got(chunk[16 + BlockStart(j, h.blockSize) + startb..16 + BlockStart(j, h.blockSize) + stopb]);
      if good {
        assert chunk[16..][at + startb..at + stopb] == r.bytes;
      }
    } else {
      Advance(n, h.blockSize, j);
      BlockSizeAtMost(n, h.blockSize, j);
      r := ReadBlock(libs, LayoutOf(h), chunk, n, j);
      if good {
        assert HoldsBlock(libs, l, chunk, src, j);
      }
      if !r.Got? {
        return;
      }
      var out := r.bytes;
      if |out| < stopb {
        // The splits of a malformed chunk can make up less than the block; what is behind them is left from before.
        var stale := new byte[stopb - |out|];
        out := out + stale[..];
      }
      if good {
        BlockPart(src, h.blockSize, j, startb, stopb);
      }
      r := Got(out[startb..stopb]);
    }
  }

  function ReadHeaderOr(chunk: seq<byte>): Header {
    if |chunk| >= 16 then ReadHeader(chunk) else Header(0, 0, 0, 0, 0, 0, 0)
  }

  lemma {:induction false} BlockPart(src: seq<byte>, blockSize: nat, j: nat, startb: nat, stopb: nat)
    requires blockSize > 0 && j < BlockCount(|src|, blockSize) && startb <= stopb <= BlockSize(|src|, blockSize, j)
    ensures BlockStart(j, blockSize) + stopb <= |src|
    ensures Block(src, blockSize, j)[startb..stopb] == src[BlockStart(j, blockSize) + startb..BlockStart(j, blockSize) + stopb]
  {
    hide BlockCount, BlockStart;
    BlocksFit(|src|, blockSize, j);
    var at, size := BlockStart(j, blockSize), BlockSize(|src|, blockSize, j);
    assert Block(src, blockSize, j) == src[at..at + size];
    SlicePart(src, at, size, startb, stopb);
  }

  lemma {:induction false} SlicePart(s: seq<byte>, at: nat, size: nat, lo: nat, hi: nat)
    requires at + size <= |s| && lo <= hi <= size
    ensures s[at..at + size][lo..hi] == s[at + lo..at + hi]
  {
    var t := s[at..at + size];
    assert forall k :: 0 <= k < hi - lo ==> t[lo..hi][k] == t[lo + k] == s[at + lo..at + hi][k];
  }

  /** The block loop of blosc_getitem for bytes `lo` up to `hi`. */
  method CopyItems(libs: Libraries, h: Header, chunk: seq<byte>, n: nat, lo: nat, hi: nat, dest: array<byte>, ghost l: Layout, ghost memcpyed: bool, ghost src: seq<byte>)
    returns (ntbytes: int, astray: bool)
    requires h == ReadHeaderOr(chunk) && n == h.nbytes && 0 < h.blockSize <= INT_MAX && h.typeSize > 0 && (h.flags / 2 % 2 == 1 || h.flags / 32 <= 4)
    requires 16 <= |chunk| <= INT_MAX && lo <= hi <= n && hi - lo <= dest.Length
    requires if h.flags / 2 % 2 == 1 then |chunk| == 16 + n else 16 + 4 * BlockCount(n, h.blockSize) <= |chunk|
    modifies dest
    ensures Sober(h.flags / 32, |chunk|, if astray then Strayed else Got([]))
    ensures Holds(libs, l, memcpyed, chunk, src) && |src| == n ==> !astray && ntbytes == hi - lo && dest[..ntbytes] == src[lo..hi]
  {
    hide BlockCount, BlockStart, Holds, LoadInt32, FilterOf, BlockSize;
    ghost var good := Holds(libs, l, memcpyed, chunk, src) && |src| == n;
    ntbytes, astray := 0, false;
    NextStart(0, h.blockSize);
    NoBlocks(n, h.blockSize);
    var j := 0;
    ghost var at := 0;
    while j < BlockCount(n, h.blockSize)
      invariant j <= BlockCount(n, h.blockSize) && 0 <= at <= n && good == (Holds(libs, l, memcpyed, chunk, src) && |src| == n)
      invariant (j < BlockCount(n, h.blockSize) ==> at == BlockStart(j, h.blockSize)) && (j == BlockCount(n, h.blockSize) ==> at == n)
      invariant ntbytes == Clamp(at, lo, hi) - lo && (good ==> dest[..ntbytes] == src[lo..lo + ntbytes])
    {
      Advance(n, h.blockSize, j);
      BlockSizeAtMost(n, h.blockSize, j);
      var startb, stopb := lo - BlockStart(j, h.blockSize), hi - BlockStart(j, h.blockSize);
      if startb < h.blockSize && stopb > 0 {
        var cbytes, stray := CopyPart(libs, h, chunk, n, j, if startb < 0 then 0 else startb, if stopb > h.blockSize then h.blockSize else stopb,
                               ntbytes, dest, lo, l, memcpyed, src);
        if stray || cbytes < 0 {
          return cbytes, stray;
        }
        ntbytes := ntbytes + cbytes;
      }
      j, at := j + 1, at + BlockSize(n, h.blockSize, j);
    }
  }

  /** The wanted bytes of one block, put behind those of the blocks before. */
  method CopyPart(libs: Libraries, h: Header, chunk: seq<byte>, n: nat, j: nat, startb: nat, stopb: nat, ntbytes: nat, dest: array<byte>,
                  ghost lo: nat, ghost l: Layout, ghost memcpyed: bool, ghost src: seq<byte>)
    returns (cbytes: int, astray: bool)
    requires h == ReadHeaderOr(chunk) && n == h.nbytes && 0 < h.blockSize <= INT_MAX && h.typeSize > 0 && (h.flags / 2 % 2 == 1 || h.flags / 32 <= 4) && j < BlockCount(n, h.blockSize)
    requires 16 <= |chunk| <= INT_MAX && startb <= stopb <= h.blockSize
    requires if h.flags / 2 % 2 == 1 then |chunk| == 16 + n else 16 + 4 * BlockCount(n, h.blockSize) <= |chunk|
    requires BlockStart(j, h.blockSize) + stopb <= n && lo + ntbytes == BlockStart(j, h.blockSize) + startb
    requires ntbytes + (stopb - startb) <= dest.Length
    requires Holds(libs, l, memcpyed, chunk, src) && |src| == n ==> dest[..ntbytes] == src[lo..lo + ntbytes]
    modifies dest
    ensures astray || cbytes < 0 || cbytes == stopb - startb
    ensures Sober(h.flags / 32, |chunk|, if astray then Strayed else Got([]))
    ensures Holds(libs, l, memcpyed, chunk, src) && |src| == n ==> !astray && cbytes >= 0 && dest[..ntbytes + cbytes] == src[lo..lo + ntbytes + cbytes]
  {
    hide BlockCount, BlockStart, Holds, LoadInt32, FilterOf;
    var r := ItemBlock(libs, h, chunk, n, j, startb, stopb, l, memcpyed, src);
    match r {
      case Strayed => return 0, true;
      case Failed(code) => return code, false;
      case Got(_) =>
    }
    cbytes, astray := |r.bytes|, false;
    StoreAt(dest, ntbytes, r.bytes);
    assert dest[..ntbytes + cbytes] == dest[..ntbytes] + dest[ntbytes..ntbytes + cbytes];
    if Holds(libs, l, memcpyed, chunk, src) && |src| == n {
      assert src[lo..lo + ntbytes + cbytes] == src[lo..lo + ntbytes] + src[lo + ntbytes..lo + ntbytes + cbytes];
    }
  }

  lemma {:induction false} BlockSizeAtMost(n: nat, blockSize: nat, j: nat)
    requires blockSize > 0 && j < BlockCount(n, blockSize)
    ensures BlockSize(n, blockSize, j) <= blockSize
    ensures j + 1 < BlockCount(n, blockSize) ==> BlockSize(n, blockSize, j) == blockSize
  {
  }

  /** The bytes of `k` items. */
  function ItemBytes(k: int, typeSize: nat): int {
    k * typeSize
  }

  /** The region tests of blosc_getitem, with its 32-bit products. */
  predicate Refuses(start: int, nitems: int, typeSize: nat, nbytes: int) {
    || start < 0 || Int32(ItemBytes(start, typeSize)) > nbytes
    || Int32(start + nitems) < 0 || Int32(ItemBytes(Int32(start + nitems), typeSize)) > nbytes
  }

  /** The region is not inside the buffer. */
  predicate Outside(start: int, nitems: int, typeSize: nat, nbytes: int) {
    start < 0 || ItemBytes(start + nitems, typeSize) > nbytes
  }

  /** As long as the end of the region is below 2^31 bytes, exactly the regions outside the buffer are refused. */
  lemma {:induction false} RefusesOutside(start: int, nitems: nat, typeSize: nat, nbytes: nat)
    requires 0 < typeSize && (start >= 0 ==> ItemBytes(start + nitems, typeSize) <= INT_MAX)
    ensures Refuses(start, nitems, typeSize, nbytes) <==> Outside(start, nitems, typeSize, nbytes)
    ensures start >= 0 ==> Int32(start + nitems) == start + nitems && Int32(ItemBytes(start, typeSize)) == ItemBytes(start, typeSize)
    ensures start >= 0 ==> Int32(ItemBytes(start + nitems, typeSize)) == ItemBytes(start + nitems, typeSize)
  {
    hide ItemBytes, Int32;
    if start >= 0 {
      ItemOrder(start, nitems, typeSize);
      ItemOrder(0, start + nitems, typeSize);
      AtLeastItems(start + nitems, typeSize);
      Int32Fits(start + nitems);
      Int32Fits(ItemBytes(start, typeSize));
      Int32Fits(ItemBytes(start + nitems, typeSize));
    }
  }

  lemma {:induction false} AtLeastItems(k: nat, typeSize: nat)
    requires typeSize > 0
    ensures k <= ItemBytes(k, typeSize)
  {
  }

  /** Elements of several bytes: the first region whose start is beyond 2^31 bytes is outside and not refused. */
  lemma {:induction false} WideAccepted(typeSize: nat, nbytes: nat)
    requires 2 <= typeSize <= MAX_TYPESIZE && nbytes <= INT_MAX
    ensures var start := INT_MAX / typeSize + 1;
      start <= INT_MAX && Outside(start, 0, typeSize, nbytes) && !Refuses(start, 0, typeSize, nbytes)
  {
    hide Int32;
    var start := INT_MAX / typeSize + 1;
    FirstBeyond(typeSize);
    Int32Fits(start);
    Negative(ItemBytes(start, typeSize));
  }

  lemma {:induction false} FirstBeyond(typeSize: nat)
    requires 2 <= typeSize <= MAX_TYPESIZE
    ensures var start := INT_MAX / typeSize + 1; start <= INT_MAX && INT_MAX < ItemBytes(start, typeSize) <= INT_MAX + typeSize
  {
    var q := INT_MAX / typeSize;
    assert q * typeSize + INT_MAX % typeSize == INT_MAX;
    assert (q + 1) * typeSize == q * typeSize + typeSize;
    assert q * 2 <= q * typeSize;
  }

  lemma {:induction false} Negative(x: int)
    requires INT_MAX < x <= INT_MAX + 0x8000_0000
    ensures Int32(x) < 0
  {
  }

  /** For one-byte elements the sum of start and count is all that can wrap, and then it is negative. */
  lemma {:induction false} BytesRefused(start: int, nitems: nat, nbytes: nat)
    requires start <= INT_MAX && nitems <= INT_MAX && nbytes <= INT_MAX
    ensures Refuses(start, nitems, 1, nbytes) <==> Outside(start, nitems, 1, nbytes)
  {
    hide Int32;
    if start >= 0 {
      Int32Fits(start);
      if start + nitems <= INT_MAX {
        Int32Fits(start + nitems);
      } else {
        Negative(start + nitems);
      }
    }
  }

  /** Over all starts and counts the refusal is exact for one-byte elements, and for no others. */
  lemma {:induction false} RefusalExact(typeSize: nat, nbytes: nat)
    requires 1 <= typeSize <= MAX_TYPESIZE && nbytes <= INT_MAX
    ensures typeSize == 1 <==>
      forall start: int, nitems: nat :: start <= INT_MAX && nitems <= INT_MAX ==> (Refuses(start, nitems, typeSize, nbytes) <==> Outside(start, nitems, typeSize, nbytes))
  {
    hide Refuses, Outside;
    if typeSize == 1 {
      forall start: int, nitems: nat | start <= INT_MAX && nitems <= INT_MAX
        ensures Refuses(start, nitems, typeSize, nbytes) <==> Outside(start, nitems, typeSize, nbytes)
      {
        BytesRefused(start, nitems, nbytes);
      }
    } else {
      WideAccepted(typeSize, nbytes);
    }
  }

  /** Beyond that a region far outside can be taken for one inside: ten items of four bytes at 2^30, of a buffer of 400. */
  lemma {:induction false} OutsideAccepted()
    ensures Outside(0x4000_0000, 10, 4, 400) && !Refuses(0x4000_0000, 10, 4, 400)
    ensures Int32(ItemBytes(0x4000_0000, 4)) == 0 && Int32(ItemBytes(0x4000_0000 + 10, 4)) == 40
  {
    assert ItemBytes(0x4000_0000, 4) == 0x1_0000_0000;
  }

  /** blosc_getitem: items `start` up to `start` + `nitems` of the buffer a chunk holds, across any number of
      blocks, without decoding the others. Items outside the buffer are refused. Where the 32-bit products have
      wrapped, bytes from somewhere else come out; the model stops when they no longer name a region at all. */
  method GetItem(libs: Libraries, chunk: seq<byte>, start: int, nitems: int, dest: array<byte>, ghost l: Layout, ghost memcpyed: bool, ghost src: seq<byte>)
    returns (r: int, astray: bool)
    requires 16 <= |chunk| <= INT_MAX && ReadHeader(chunk).cbytes == |chunk| && 0 <= nitems <= INT_MAX && start <= INT_MAX
    requires ItemBytes(nitems, ReadHeader(chunk).typeSize) <= dest.Length
    modifies dest
    ensures Holds(libs, l, memcpyed, chunk, src) && src != [] && !Outside(start, nitems, l.typeSize, |src|) ==>
      !astray && 0 <= ItemBytes(start, l.typeSize) <= ItemBytes(start + nitems, l.typeSize) && r == ItemBytes(nitems, l.typeSize) && 0 <= r <= dest.Length
      && dest[..r] == src[ItemBytes(start, l.typeSize)..ItemBytes(start + nitems, l.typeSize)]
    ensures Holds(libs, l, memcpyed, chunk, src) && (src == [] || Refuses(start, nitems, l.typeSize, |src|)) ==> !astray && r == -1
    ensures Holds(libs, l, memcpyed, chunk, src) && src != [] && !astray && !Refuses(start, nitems, l.typeSize, |src|) ==>
      var lo, hi := Int32(ItemBytes(start, l.typeSize)), Int32(ItemBytes(start + nitems, l.typeSize));
      0 <= lo <= hi <= |src| && r == hi - lo <= dest.Length && dest[..r] == src[lo..hi]
    ensures ReadHeader(chunk).version != 2 ==> r == -9
  {
    hide Holds, HoldsBlocks, LoadInt32, FilterOf, BlockCount, ItemBytes, Le32, Int32;
    astray := false;
    ghost var good := Holds(libs, l, memcpyed, chunk, src);
    var h := ReadHeader(chunk);
    if good {
      HeaderRead(libs, l, memcpyed, chunk, src);
      Content(libs, l, memcpyed, chunk, src);
    }
    if h.version != VERSION_FORMAT {
      return -9, astray;
    }
    if h.blockSize <= 0 || h.blockSize > h.nbytes || h.blockSize > MAX_BLOCKSIZE || h.typeSize <= 0 || h.typeSize > MAX_TYPESIZE {
      return -1, astray;
    }
    var status := CheckBody(h);
    if status != 0 {
      return status, astray;
    }
    InsideBelow(libs, l, memcpyed, chunk, src, start, nitems);
    if Refuses(start, nitems, h.typeSize, h.nbytes) {
      return -1, astray;
    }
    var lo, hi := Int32(ItemBytes(start, h.typeSize)), Int32(ItemBytes(Int32(start + nitems), h.typeSize));
    WrappedRegion(start, nitems, h.typeSize);
    if lo < 0 || hi < lo {
      return 0, true;
    }
    r, astray := CopyItems(libs, h, chunk, h.nbytes, lo, hi, dest, l, memcpyed, src);
  }

  /** A region inside a held buffer ends below 2^31. */
  lemma {:induction false} InsideBelow(libs: Libraries, l: Layout, memcpyed: bool, chunk: seq<byte>, src: seq<byte>, start: int, nitems: nat)
    ensures Holds(libs, l, memcpyed, chunk, src) && !Outside(start, nitems, l.typeSize, |src|) ==>
      && !Refuses(start, nitems, l.typeSize, |src|) && Int32(ItemBytes(start, l.typeSize)) == ItemBytes(start, l.typeSize)
      && Int32(ItemBytes(start + nitems, l.typeSize)) == ItemBytes(start + nitems, l.typeSize)
      && 0 <= ItemBytes(start, l.typeSize) <= ItemBytes(start + nitems, l.typeSize) == ItemBytes(start, l.typeSize) + ItemBytes(nitems, l.typeSize)
  {
    hide ItemBytes, Int32, HoldsBlocks, HeaderOk, Refuses;
    if Holds(libs, l, memcpyed, chunk, src) && !Outside(start, nitems, l.typeSize, |src|) {
      RefusesOutside(start, nitems, l.typeSize, |src|);
      ItemOrder(start, nitems, l.typeSize);
    }
  }

  /** Wrapping never makes a region longer. */
  lemma {:induction false} WrappedRegion(start: nat, nitems: nat, typeSize: nat)
    requires start <= INT_MAX && nitems <= INT_MAX && Int32(start + nitems) >= 0
    ensures Int32(start + nitems) == start + nitems
    ensures var lo, hi := Int32(ItemBytes(start, typeSize)), Int32(ItemBytes(start + nitems, typeSize)); hi - lo <= ItemBytes(nitems, typeSize)
  {
    hide ItemBytes;
    ItemOrder(start, nitems, typeSize);
    WrapOrder(ItemBytes(start, typeSize), ItemBytes(start + nitems, typeSize));
  }

  lemma {:induction false} WrapOrder(x: nat, y: nat)
    requires x <= y
    ensures Int32(y) - Int32(x) <= y - x
  {
  }

  /** The size tests of blosc_getitem. */
  method CheckBody(h: Header) returns (status: int)
    requires 0 < h.blockSize <= h.nbytes
    ensures status == 0 <==> if h.flags / 2 % 2 == 1 then h.nbytes + MAX_OVERHEAD == h.cbytes
      else DecompressFunc(h) == 0 && BlockCount(h.nbytes, h.blockSize) < (h.cbytes - 16) / 4
  {
    hide BlockCount;
    if h.flags / 2 % 2 == 1 {
      return if h.nbytes + MAX_OVERHEAD != h.cbytes then -1 else 0;
    }
    status := DecompressFunc(h);
    if status == 0 && BlockCount(h.nbytes, h.blockSize) >= (h.cbytes - 16) / 4 {
      status := -1;
    }
  }

  lemma {:induction false} ItemOrder(start: int, nitems: int, typeSize: nat)
    requires nitems >= 0
    ensures ItemBytes(start + nitems, typeSize) == ItemBytes(start, typeSize) + ItemBytes(nitems, typeSize) && 0 <= ItemBytes(nitems, typeSize)
    ensures start >= 0 ==> 0 <= ItemBytes(start, typeSize)
  {
  }
}
