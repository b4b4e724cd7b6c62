// Compression of a buffer in one thread: initialize_context_compression, write_compression_header,
// blosc_c, serial_blosc and blosc_compress_context.

module ChunkWriter {
  import opened Bytes
  import opened CopyKernels
  import opened Stores
  import opened Chunk
  import BloscLzEncoder
  import BloscLzFormat
  import Lz4Encoder
  import Lz4Hc
  import Grids
  import Shuffle
  import Bitshuffle

  // ----- choosing the block size -----

  datatype SplitMode = AlwaysSplit | NeverSplit | AutoSplit | ForwardCompatSplit

  /** split_block. */
  predicate SplitBlock(mode: SplitMode, c: CompCode, typeSize: nat, blockSize: nat)
    requires typeSize > 0
  {
    match mode
    case AlwaysSplit => true
    case NeverSplit => false
    case AutoSplit => (c.BloscLz? || c.Snappy?) && typeSize <= MAX_SPLITS && blockSize / typeSize >= MIN_BUFFERSIZE
    case ForwardCompatSplit => !c.Zstd? && typeSize <= MAX_SPLITS && blockSize / typeSize >= MIN_BUFFERSIZE
  }

  /** Codecs meant for high compression ratios. */
  predicate Hcr(c: CompCode) {
    c.Lz4Hc? || c.Zlib? || c.Zstd?
  }

  /** The block size by compression level for buffers of at least 32 KB. */
  function LevelBlockSize(c: CompCode, clevel: nat): (b: nat)
    requires clevel <= 9
    ensures 0 < b <= 0x10_0000
  {
    var base := if Hcr(c) then 0x1_0000 else 0x8000;
    if clevel == 0 then base / 4
    else if clevel == 1 then base / 2
    else if clevel == 2 then base
    else if clevel == 3 then base * 2
    else if clevel <= 5 then base * 4
    else if clevel <= 8 then base * 8
    else if Hcr(c) then base * 16 else base * 8
  }

  /** Larger blocks for split codecs, within limits. */
  function Enlarged(blockSize: nat, typeSize: nat): (b: nat)
    requires typeSize > 0
    ensures 0x1_0000 <= b <= 0x10_0000
  {
    var some := (if blockSize > 0x4_0000 then 0x4_0000 else blockSize) * typeSize;
    if some < 0x1_0000 then 0x1_0000 else if some > 0x10_0000 then 0x10_0000 else some
  }

  /** Rounded down to whole elements, when it is more than one. */
  function Rounded(blockSize: nat, typeSize: nat): (b: nat)
    requires typeSize > 0
    ensures b <= blockSize && (blockSize > 0 ==> b > 0) && blockSize <= 2 * b
    ensures b > typeSize ==> Times(b / typeSize, typeSize) == b
  {
    if blockSize > typeSize then
      RoundedDown(blockSize, typeSize);
      blockSize / typeSize * typeSize
    else blockSize
  }

  lemma {:induction false} RoundedDown(n: nat, size: nat)
    requires 0 < size < n
    ensures var b := n / size * size; 0 < b <= n <= 2 * b && Times(b / size, size) == b
  {
    BlocksCover(n, size);
    TimesIsProduct(n / size, size);
    QuotientOfProduct(n / size, size);
    if n / size == 0 {
      assert false;
    }
    assert n / size * size >= size;
  }

  lemma {:induction false} QuotientOfProduct(q: nat, size: nat)
    requires size > 0
    ensures q * size / size == q
  {
    var n := q * size;
    Grids.IxUnique(q, 0, size);
    assert Grids.Ix(n / size, n % size, size) == Grids.Ix(q, 0, size);
  }

  /** compute_blocksize. */
  function ComputeBlockSize(mode: SplitMode, c: CompCode, clevel: nat, typeSize: nat, nbytes: nat, forced: int): (b: nat)
    requires typeSize > 0 && clevel <= 9
    ensures 0 < b <= MAX_BLOCKSIZE && (nbytes > 0 ==> b <= nbytes) && (b >= 64 || nbytes < 256 || nbytes < typeSize)
    ensures b > typeSize ==> Times(b / typeSize, typeSize) == b
  {
    if nbytes < typeSize then 1
    else
      var start :=
        if forced != 0 then (if forced < MIN_BUFFERSIZE then MIN_BUFFERSIZE else if forced > MAX_BLOCKSIZE then MAX_BLOCKSIZE else forced)
        else if nbytes >= 0x8000 then LevelBlockSize(c, clevel) else nbytes;
      var larger := if clevel > 0 && SplitBlock(mode, c, typeSize, start) then Enlarged(start, typeSize) else start;
      Rounded(if larger > nbytes then nbytes else larger, typeSize)
  }

  /** The sizes of the blocks of a large buffer, by level, when blocks are not split: from 8 KB to 256 KB, and twice
      that, in the end four times, for the codecs with high ratios. */
  lemma {:induction false} UnsplitBlocks(c: CompCode, clevel: nat, nbytes: nat)
    requires clevel <= 9 && nbytes >= 1048576
    ensures ComputeBlockSize(NeverSplit, c, clevel, 1, nbytes, 0) ==
      if c.BloscLz? || c.Lz4? || c.Snappy? then [8192, 16384, 32768, 65536, 131072, 131072, 262144, 262144, 262144, 262144][clevel]
      else [16384, 32768, 65536, 131072, 262144, 262144, 524288, 524288, 524288, 1048576][clevel]
  {
    hide LevelBlockSize;
    LevelSize(c, clevel);
    var b := LevelBlockSize(c, clevel);
    assert b / 1 * 1 == b;
  }

  /** And when BloscLZ splits them: as much for every byte of an element, but from 64 KB to 1 MB. */
  lemma {:induction false} SplitBlocks(clevel: nat, typeSize: nat, nbytes: nat)
    requires 1 <= clevel <= 9 && nbytes >= 1048576 && (typeSize == 1 || typeSize == 2 || typeSize == 4 || typeSize == 8 || typeSize == 16)
    ensures var b := [8192, 16384, 32768, 65536, 131072, 131072, 262144, 262144, 262144, 262144][clevel] * typeSize;
      ComputeBlockSize(AutoSplit, BloscLz, clevel, typeSize, nbytes, 0) == if b < 65536 then 65536 else if b > 1048576 then 1048576 else b
  {
    hide Times, LevelBlockSize;
    LevelSize(BloscLz, clevel);
    var level := LevelBlockSize(BloscLz, clevel);
    assert level >= 8192 && level / typeSize >= MIN_BUFFERSIZE;
    WholeMultiples(level * typeSize, typeSize);
  }

  lemma {:induction false} LevelSize(c: CompCode, clevel: nat)
    requires clevel <= 9
    ensures LevelBlockSize(c, clevel) ==
      if c.BloscLz? || c.Lz4? || c.Snappy? then [8192, 16384, 32768, 65536, 131072, 131072, 262144, 262144, 262144, 262144][clevel]
      else [16384, 32768, 65536, 131072, 262144, 262144, 524288, 524288, 524288, 1048576][clevel]
  {
  }

  lemma {:induction false} WholeMultiples(n: nat, t: nat)
    requires t == 1 || t == 2 || t == 4 || t == 8 || t == 16
    ensures 65536 / t * t == 65536 && 1048576 / t * t == 1048576
    ensures n % t == 0 ==> n / t * t == n
  {
  }

  /** The layout that initialize_context_compression and write_compression_header settle on. A forced block size is
      cast to 32 bits on the way. */
  function LayoutFor(c: CompCode, clevel: nat, doshuffle: int, typeSize: int, nbytes: nat, forced: nat, mode: SplitMode): (l: Layout)
    requires typeSize > 0 && clevel <= 9
    ensures 0 < l.typeSize <= MAX_TYPESIZE && 0 < l.blockSize <= MAX_BLOCKSIZE
  {
    var t := if typeSize > MAX_TYPESIZE then 1 else typeSize;
    var filter := if doshuffle == 1 then ByteShuffle else if doshuffle == 2 then BitShuffle else NoFilter;
    var b := ComputeBlockSize(mode, c, clevel, t, nbytes, Int32(forced));
    Layout(Format(c), filter, t, !SplitBlock(mode, c, t, b), b)
  }

  /** A block larger than an element is made of whole ones. */
  ghost predicate WholeElements(l: Layout)
    requires l.typeSize > 0
  {
    l.blockSize > l.typeSize ==> Times(l.blockSize / l.typeSize, l.typeSize) == l.blockSize
  }

  lemma {:induction false} LayoutMade(c: CompCode, clevel: nat, doshuffle: int, typeSize: int, nbytes: nat, forced: nat, mode: SplitMode)
    requires typeSize > 0 && clevel <= 9
    ensures var l := LayoutFor(c, clevel, doshuffle, typeSize, nbytes, forced, mode);
      && WholeElements(l) && (nbytes > 0 ==> l.blockSize <= nbytes) && (l.blockSize >= 64 || nbytes < 256)
      && l.format == Format(c) && l.dontSplit == !SplitBlock(mode, c, l.typeSize, l.blockSize)
  {
    hide ComputeBlockSize, SplitBlock, Times;
  }

  /** Forcing blocks of 2^31 bytes gives the smallest ones instead of the largest. */
  lemma {:induction false} ForcedWraps(c: CompCode)
    ensures LayoutFor(c, 0, 0, 1, MAX_BUFFERSIZE, 0x8000_0000, NeverSplit).blockSize == MIN_BUFFERSIZE
    ensures LayoutFor(c, 0, 0, 1, MAX_BUFFERSIZE, INT_MAX, NeverSplit).blockSize == MAX_BLOCKSIZE
  {
    assert Int32(0x8000_0000) == -0x8000_0000 && Int32(INT_MAX) == INT_MAX;
    assert MIN_BUFFERSIZE / 1 * 1 == MIN_BUFFERSIZE && MAX_BLOCKSIZE / 1 * 1 == MAX_BLOCKSIZE;
  }

  // ----- one split -----

  /** What is fixed for one compression. */
  datatype Params = Params(clevel: nat, codec: CompCode, layout: Layout)

  /** A library codec that gives up on every input. */
  ghost predicate GivesUp(libs: Libraries, c: CompCode) {
    Format(c) >= 2 && forall s: seq<byte>, maxout: nat, clevel: nat :: libs.compress(c, s, maxout, clevel) == []
  }

  /** Nothing becomes smaller: the library gives up, or BloscLZ gets bytes that it cannot shorten, and gets them unfiltered. */
  ghost predicate Stubborn(libs: Libraries, p: Params, s: seq<byte>) {
    GivesUp(libs, p.codec) || (p.codec.BloscLz? && p.layout.filter.NoFilter? && BloscLzFormat.NoRepeats(s))
  }

  /** All blocks of a buffer are like that. */
  ghost predicate StubbornBlocks(libs: Libraries, p: Params, src: seq<byte>)
    requires p.layout.blockSize > 0
  {
    forall j: nat :: j < BlockCount(|src|, p.layout.blockSize) ==> Stubborn(libs, p, Block(src, p.layout.blockSize, j))
  }

  lemma {:induction false} PartStubborn(libs: Libraries, p: Params, s: seq<byte>, lo: nat, hi: nat)
    requires Stubborn(libs, p, s) && lo <= hi <= |s|
    ensures Stubborn(libs, p, s[lo..hi])
  {
    hide GivesUp, BloscLzFormat.NoRepeats;
    if !GivesUp(libs, p.codec) {
      BloscLzFormat.PartNoRepeats(s, lo, hi);
    }
  }

  lemma {:induction false} PiecesStubborn(libs: Libraries, p: Params, data: seq<byte>, pos: nat, ne: nat)
    requires pos + ne <= |data|
    ensures Stubborn(libs, p, data) ==> Stubborn(libs, p, data[pos..pos + ne])
  {
    hide Stubborn;
    if Stubborn(libs, p, data) {
      PartStubborn(libs, p, data, pos, pos + ne);
    }
  }

  /** The codec call of blosc_c. The result is empty when the codec gives up. The ratio that blosclz_compress
      estimates with floating point is left open. BloscLZ does not give up on one byte over and over when the
      ratio lets it try, nor LZ4 and LZ4HC at all. */
  method CompressSplit(libs: Libraries, p: Params, s: seq<byte>, maxout: nat) returns (z: seq<byte>, ghost ratio: real)
    requires Meets(libs) && 1 <= p.clevel <= 9
    ensures |z| <= maxout && (z != [] ==> Stands(libs, Format(p.codec), z, s))
    ensures Stubborn(libs, p, s) && maxout <= |s| ==> z == []
    ensures GivesUp(libs, p.codec) ==> z == []
    ensures Uniform(s) && 16 < |s| <= 2113929216 && maxout >= 66 && maxout >= 13 + |s| / 255 ==>
      && (p.codec.BloscLz? && ratio >= BloscLzEncoder.MinimumRatio(p.clevel) ==> 0 < |z| <= 12 + |s| / 255)
      && (p.codec.Lz4? || p.codec.Lz4Hc? ==> 0 < |z| <= 11 + |s| / 255)
    ensures Format(p.codec) >= 2 ==> z == libs.compress(p.codec, s, maxout, p.clevel)
  {
    hide BloscLzFormat.NoRepeats, BloscLzFormat.Decode, Uniform, BloscLzEncoder.MinimumRatio;
    ratio := 0.0;
    if p.codec.BloscLz? {
      var out, cratio: real := new byte[maxout](_ => 0), *;
      var r := BloscLzEncoder.Compress(p.clevel, s, out, maxout, !p.layout.dontSplit, cratio, 8);
      z, ratio := out[..r], cratio;
      if r > 0 && BloscLzFormat.NoRepeats(s) {
        BloscLzFormat.Incompressible(z, |s|, s);
      }
    } else if p.codec.Lz4? {
      var out := new byte[maxout](_ => 0);
      var r := Lz4Encoder.CompressFast(s, out, maxout, 10 - p.clevel, |s|);
      z := out[..r];
    } else if p.codec.Lz4Hc? {
      var out := new byte[maxout](_ => 0);
      var r := Lz4Hc.CompressHC(s, out, maxout, p.clevel, false, |s|);
      z := out[..r];
    } else {
      z := libs.compress(p.codec, s, maxout, p.clevel);
    }
  }

  // ----- one block -----

  /** The filter step of blosc_c. */
  method FilterBlock(f: Filter, typeSize: nat, block: seq<byte>) returns (data: seq<byte>)
    requires typeSize > 0
    ensures |data| == |block| && Filtered(f, typeSize, data, block)
  {
    hide Shuffle.Shuffled, Bitshuffle.Bitshuffled;
    match EffectiveFilter(f, typeSize, |block|) {
      case NoFilter =>
        data := block;
      case ByteShuffle =>
        var tmp := new byte[|block|](_ => 0);
        Shuffle.ShuffleGeneric(typeSize, block, tmp);
        data := tmp[..|block|];
      case BitShuffle =>
        var tmp, tmp2 := new byte[|block|](_ => 0), new byte[|block|](_ => 0);
        var bscount := Bitshuffle.BitshuffleBlock(typeSize, block, tmp, tmp2);
        data := tmp[..|block|];
    }
  }

  /** The writer's number of splits. */
  function WriterSplits(l: Layout, leftover: bool): (k: nat)
    requires l.typeSize > 0
    ensures k > 0
  {
    if !l.dontSplit && !leftover then l.typeSize else 1
  }

  /** The bytes of a split and, in front of them, their number. */
  method PutFramed(dest: array<byte>, ntbytes: nat, z: seq<byte>)
    requires ntbytes + 4 + |z| <= dest.Length && |z| < 0x8000_0000
    modifies dest
    ensures dest[ntbytes..ntbytes + 4 + |z|] == Le32Bytes(|z|) + z
    ensures SameOutside(dest[..], old(dest[..]), ntbytes, ntbytes + 4 + |z|)
  {
    hide Le32Bytes;
    StoreAt(dest, ntbytes + 4, z);
    StoreAt(dest, ntbytes, Le32Bytes(|z|));
    assert dest[ntbytes..ntbytes + 4 + |z|] == dest[ntbytes..ntbytes + 4] + dest[ntbytes + 4..ntbytes + 4 + |z|];
  }

  /** What became of an attempt to store: `size` bytes are in place; or there is no room, the code's result 0; or
      the code passed over the end of the destination, by handing the codec room behind it or by a store of its
      own, and what it wants to keep itself reaches `behind` bytes beyond: the model stops there. */
  datatype Outcome = Stored(size: nat) | NoRoom | Overrun(behind: nat)

  /** One split with its length word in front. When the sums of blosc_c wrap, the codec is given room behind the
      destination, and this is the only way to pass its end. `raw` says that the codec delivered nothing smaller. */
  method PutSplit(libs: Libraries, p: Params, s: seq<byte>, ntbytes: nat, maxbytes: nat, dest: array<byte>) returns (o: Outcome, ghost z: seq<byte>, ghost raw: bool)
    requires Meets(libs) && 1 <= p.clevel <= 9 && p.layout.format == Format(p.codec) && maxbytes <= dest.Length && maxbytes <= INT_MAX
    requires 0 < |s| <= MAX_BLOCKSIZE && ntbytes <= INT_MAX
    modifies dest
    ensures o.Overrun? <==> ntbytes + 4 + Want(libs, p.codec, |s|) > INT_MAX
    ensures o.NoRoom? ==> ntbytes + 4 + |s| > maxbytes
    ensures o.Stored? ==> 0 < |z| <= INT_MAX && o.size == 4 + |z| && ntbytes + o.size <= maxbytes
    ensures o.Stored? ==> SplitOk(libs, p.layout.format, z, s) && dest[ntbytes..ntbytes + o.size] == Le32Bytes(|z|) + z
    ensures Stubborn(libs, p, s) ==> raw
    ensures (p.codec.Lz4? || p.codec.Lz4Hc?) && Uniform(s) && |s| >= 66 && ntbytes + 4 + |s| <= maxbytes ==> o.Stored? && |z| <= 11 + |s| / 255
    ensures raw && o.Stored? ==> |z| == |s|
    ensures raw && o.Overrun? ==> o.behind == Behind(ntbytes + 4 + |s|, maxbytes)
    ensures !o.Overrun? ==> SameOutside(dest[..], old(dest[..]), ntbytes, maxbytes)
  {
    hide Le32Bytes, Stands, Int32, GivesUp, BloscLzFormat.NoRepeats, Uniform;
    z := [];
    raw := true;
    var at := ntbytes + 4;
    var maxout := Want(libs, p.codec, |s|);
    SpaceTest(at, maxout, maxbytes);
    SpaceTest(at, |s|, maxbytes);
    if Exceeds(at, maxout, maxbytes) {
      if maxbytes <= at {
        return NoRoom, z, raw;
      }
      maxout := maxbytes - at;
    }
    ghost var ratio;
    var out;
    out, ratio := CompressSplit(libs, p, s, maxout);
    raw := out == [] || |out| == |s|;
    if out == [] || |out| == |s| {
      if Exceeds(at, |s|, maxbytes) {
        return if at + maxout > INT_MAX then Overrun(0) else NoRoom, z, raw;
      }
      out := s;
    }
    if at + maxout > INT_MAX {
      return Overrun(if at + |out| > maxbytes then at + |out| - maxbytes else 0), z, raw;
    }
    PutFramed(dest, ntbytes, out);
    z := out;
    o := Stored(4 + |out|);
  }

  /** How far a raw copy that ends at `e` reaches behind the destination: its own space test wraps too or holds it back. */
  function Behind(e: nat, maxbytes: nat): nat {
    if e > INT_MAX && e > maxbytes then e - maxbytes else 0
  }

  /** Where split `j` of a block at `at` begins when the ones before were stored raw, `ne` bytes each. */
  ghost function SplitAt(at: nat, ne: nat, j: nat): nat {
    at + Times(j, ne + 4)
  }

  /** Split `j` of a block at `at` is reached, all before it stored raw, and asking room for it wraps. */
  ghost predicate SplitWraps(at: nat, ne: nat, want: nat, maxbytes: nat, j: nat) {
    (j == 0 || SplitAt(at, ne, j) <= maxbytes) && SplitAt(at, ne, j) + 4 + want > INT_MAX
  }

  lemma {:induction false} SplitsLater(at: nat, ne: nat, i: nat, j: nat)
    requires i <= j
    ensures SplitAt(at, ne, i) <= SplitAt(at, ne, j) && (i < j ==> SplitAt(at, ne, i) + ne + 4 <= SplitAt(at, ne, j))
    ensures SplitAt(at, ne, 0) == at && SplitAt(at, ne, j + 1) == SplitAt(at, ne, j) + ne + 4
    decreases j
  {
    if i < j {
      SplitsLater(at, ne, i, j - 1);
    }
  }

  /** No sum wraps in the first `k` splits. */
  ghost predicate NoSplitWraps(at: nat, ne: nat, want: nat, maxbytes: nat, k: nat) {
    forall j: nat :: j < k ==> !SplitWraps(at, ne, want, maxbytes, j)
  }

  /** How a block ends when all its splits are stored raw: the limit is passed exactly when some sum wraps. */
  ghost predicate RawSplits(at: nat, ne: nat, nsplits: nat, want: nat, maxbytes: nat, o: Outcome) {
    match o
    case Stored(size) => NoSplitWraps(at, ne, want, maxbytes, nsplits) && at + size == SplitAt(at, ne, nsplits)
    case NoRoom => NoSplitWraps(at, ne, want, maxbytes, nsplits) && SplitAt(at, ne, nsplits) > maxbytes
    case Overrun(behind) => exists j: nat :: j < nsplits && SplitWraps(at, ne, want, maxbytes, j) && behind == Behind(SplitAt(at, ne, j) + 4 + ne, maxbytes)
  }

  lemma {:induction false} NoSplitYet(at: nat, ne: nat, want: nat, maxbytes: nat)
    ensures NoSplitWraps(at, ne, want, maxbytes, 0) && SplitAt(at, ne, 0) == at
  {
  }

  /** What became of split `j` when all before it were stored raw. */
  lemma {:induction false} RawSplitNext(at: nat, ne: nat, nsplits: nat, want: nat, maxbytes: nat, j: nat, o: Outcome)
    requires j < nsplits && NoSplitWraps(at, ne, want, maxbytes, j) && (j == 0 || SplitAt(at, ne, j) <= maxbytes)
    requires o.Overrun? <==> SplitAt(at, ne, j) + 4 + want > INT_MAX
    requires o.Overrun? ==> o.behind == Behind(SplitAt(at, ne, j) + 4 + ne, maxbytes)
    requires o.NoRoom? ==> SplitAt(at, ne, j) + 4 + ne > maxbytes
    ensures o.Stored? ==> NoSplitWraps(at, ne, want, maxbytes, j + 1)
    ensures !o.Stored? ==> RawSplits(at, ne, nsplits, want, maxbytes, o)
  {
    hide SplitAt, Behind;
    SplitsLater(at, ne, j, nsplits);
    forall i: nat | j < i && o.NoRoom?
      ensures !SplitWraps(at, ne, want, maxbytes, i)
    {
      SplitsLater(at, ne, j, i);
    }
    if o.Overrun? {
      assert SplitWraps(at, ne, want, maxbytes, j);
    }
  }

  lemma {:induction false} RawAll(at: nat, ne: nat, nsplits: nat, want: nat, maxbytes: nat, size: nat)
    requires NoSplitWraps(at, ne, want, maxbytes, nsplits) && at + size == SplitAt(at, ne, nsplits)
    ensures RawSplits(at, ne, nsplits, want, maxbytes, Stored(size))
  {
  }

  /** All splits of a filtered block. */
  method PutSplits(libs: Libraries, p: Params, data: seq<byte>, neblock: nat, nsplits: nat, ntbytes0: nat, maxbytes: nat, dest: array<byte>) returns (o: Outcome, ghost raw: bool)
    requires Meets(libs) && 1 <= p.clevel <= 9 && p.layout.format == Format(p.codec) && maxbytes <= dest.Length && maxbytes <= INT_MAX
    requires neblock <= MAX_BLOCKSIZE && ntbytes0 <= INT_MAX
    requires nsplits > 0 && neblock > 0 && Times(nsplits, neblock) == |data|
    modifies dest
    ensures o.Stored? ==> 4 < o.size && ntbytes0 + o.size <= maxbytes && SplitsOk(libs, p.layout.format, dest[ntbytes0..ntbytes0 + o.size], data, neblock, nsplits)
    ensures o.Overrun? ==> ntbytes0 + 4 + Want(libs, p.codec, neblock) > INT_MAX || maxbytes + 4 + Want(libs, p.codec, neblock) > INT_MAX
    ensures Stubborn(libs, p, data) ==> raw
    ensures raw ==> RawSplits(ntbytes0, neblock, nsplits, Want(libs, p.codec, neblock), maxbytes, o)
    ensures !o.Overrun? ==> SameOutside(dest[..], old(dest[..]), ntbytes0, maxbytes)
  {
    hide Meets, SplitOk, SplitsOk, Le32Bytes, SplitAt, Want, Stubborn, NoSplitWraps, SplitWraps, Behind, RawSplits, Meets;
    ghost var want := Want(libs, p.codec, neblock);
    var j: nat, ntbytes: nat, pos: nat := 0, ntbytes0, 0;
    ghost var b: seq<byte> := [];
    raw := true;
    NoSplits(libs, p.layout.format, data, neblock);
    NoSplitYet(ntbytes0, neblock, want, maxbytes);
    while j < nsplits
      invariant j <= nsplits && ntbytes == ntbytes0 + |b| && if j == 0 then b == [] else |b| > 4 && ntbytes <= maxbytes
      invariant pos <= |data| && Times(nsplits - j, neblock) + pos == |data|
      invariant ntbytes <= dest.Length ==> dest[ntbytes0..ntbytes] == b
      invariant SplitsOk(libs, p.layout.format, b, data[..pos], neblock, j)
      invariant SameOutside(dest[..], old(dest[..]), ntbytes0, maxbytes)
      invariant Stubborn(libs, p, data) ==> raw
      invariant raw ==> ntbytes == SplitAt(ntbytes0, neblock, j) && NoSplitWraps(ntbytes0, neblock, want, maxbytes, j)
    {
      ghost var z, rawSplit;
      var split: Outcome;
      PiecesStubborn(libs, p, data, pos, neblock);
      split, z, rawSplit := PutSplit(libs, p, data[pos..pos + neblock], ntbytes, maxbytes, dest);
      raw := raw && rawSplit;
      if raw {
        RawSplitNext(ntbytes0, neblock, nsplits, want, maxbytes, j, split);
      }
      if !split.Stored? {
        return split, raw;
      }
      NextSplit(libs, p.layout.format, b, data, pos, neblock, j, z);
      assert dest[ntbytes0..ntbytes + split.size] == dest[ntbytes0..ntbytes] + dest[ntbytes..ntbytes + split.size];
      SplitsLater(ntbytes0, neblock, 0, j);
      b := b + (Le32Bytes(|z|) + z);
      j, ntbytes, pos := j + 1, ntbytes + split.size, pos + neblock;
    }
    assert data[..pos] == data;
    if raw {
      RawAll(ntbytes0, neblock, nsplits, want, maxbytes, ntbytes - ntbytes0);
    }
    o := Stored(ntbytes - ntbytes0);
  }

  lemma {:induction false} NoSplits(libs: Libraries, format: nat, data: seq<byte>, ne: nat)
    ensures SplitsOk(libs, format, [], data[..0], ne, 0)
  {
  }

  /** One more split of `data`, from `pos` on. */
  lemma {:induction false} NextSplit(libs: Libraries, format: nat, b: seq<byte>, data: seq<byte>, pos: nat, ne: nat, j: nat, z: seq<byte>)
    requires pos + ne <= |data| && SplitsOk(libs, format, b, data[..pos], ne, j) && SplitOk(libs, format, z, data[pos..pos + ne]) && |z| <= INT_MAX
    ensures SplitsOk(libs, format, b + (Le32Bytes(|z|) + z), data[..pos + ne], ne, j + 1)
  {
    hide SplitsOk, SplitOk, Le32Bytes;
    SplitsAppend(libs, format, b, data[..pos], ne, j, z, data[pos..pos + ne]);
    assert data[..pos] + data[pos..pos + ne] == data[..pos + ne];
  }

  /** The size of the splits of a block. */
  function SplitSize(l: Layout, size: nat, leftover: bool): nat
    requires l.typeSize > 0
  {
    size / WriterSplits(l, leftover)
  }

  /** The splits make up the whole block. */
  ghost predicate Cut(l: Layout, size: nat, leftover: bool)
    requires l.typeSize > 0
  {
    SplitSize(l, size, leftover) > 0 && Times(WriterSplits(l, leftover), SplitSize(l, size, leftover)) == size
  }

  lemma {:induction false} SplitAtMost(l: Layout, size: nat, leftover: bool)
    requires l.typeSize > 0 && Cut(l, size, leftover)
    ensures SplitSize(l, size, leftover) <= size && (WriterSplits(l, leftover) > 1 ==> SplitSize(l, size, leftover) < size)
  {
    hide SplitSize, WriterSplits;
    var k, ne := WriterSplits(l, leftover), SplitSize(l, size, leftover);
    assert Times(k, ne) == Times(k - 1, ne) + ne;
  }

  /** blosc_c: filter, split and compress one block. */
  method CompressBlock(libs: Libraries, p: Params, block: seq<byte>, leftover: bool, ntbytes: nat, maxbytes: nat, dest: array<byte>) returns (o: Outcome, ghost raw: bool)
    requires Meets(libs) && 1 <= p.clevel <= 9 && p.layout.format == Format(p.codec) && maxbytes <= dest.Length && maxbytes <= INT_MAX
    requires |block| <= MAX_BLOCKSIZE && ntbytes <= INT_MAX
    requires block != [] && p.layout.typeSize > 0 && Cut(p.layout, |block|, leftover)
    modifies dest
    ensures o.Stored? ==> 4 < o.size && ntbytes + o.size <= maxbytes
    ensures o.Stored? ==> EncodedIn(libs, p.layout, dest[ntbytes..ntbytes + o.size], block, WriterSplits(p.layout, leftover))
    ensures var want := Want(libs, p.codec, SplitSize(p.layout, |block|, leftover));
      && (o.Overrun? ==> ntbytes + 4 + want > INT_MAX || maxbytes + 4 + want > INT_MAX)
      && (raw ==> RawSplits(ntbytes, SplitSize(p.layout, |block|, leftover), WriterSplits(p.layout, leftover), want, maxbytes, o))
    ensures Stubborn(libs, p, block) ==> raw
    ensures !o.Overrun? ==> SameOutside(dest[..], old(dest[..]), ntbytes, maxbytes)
  {
    hide Meets, SplitsOk, Stands, RawSplits, Want, GivesUp, Times, Shuffle.Shuffled, Bitshuffle.Bitshuffled, BloscLzFormat.NoRepeats;
    SplitAtMost(p.layout, |block|, leftover);
    var data := FilterBlock(p.layout.filter, p.layout.typeSize, block);
    o, raw := PutSplits(libs, p, data, SplitSize(p.layout, |block|, leftover), WriterSplits(p.layout, leftover), ntbytes, maxbytes, dest);
  }

  /** Writer and reader agree on the number of splits, and the splits make up the whole block. */
  ghost predicate Divides(l: Layout, size: nat, leftover: bool)
    requires l.typeSize > 0
  {
    WriterSplits(l, leftover) == Splits(l, size, leftover) && Cut(l, size, leftover)
  }

  lemma {:induction false} CutOf(l: Layout, size: nat, leftover: bool)
    requires l.typeSize > 0 && Divides(l, size, leftover)
    ensures Cut(l, size, leftover)
  {
  }

  /** The writer's test of the split flag and the reader's additional size test give the same number of splits
      exactly when the block is the leftover one, is not to be split, has one-byte elements or is large enough
      with few enough splits. */
  lemma {:induction false} SplitAgreement(l: Layout, size: nat, leftover: bool)
    requires l.typeSize > 0
    ensures WriterSplits(l, leftover) == Splits(l, size, leftover)
      <==> l.dontSplit || leftover || l.typeSize == 1 || (l.typeSize <= MAX_SPLITS && size / l.typeSize >= MIN_BUFFERSIZE)
  {
  }

  /** Then what the writer makes is what the reader expects. */
  lemma {:induction false} AsExpected(libs: Libraries, l: Layout, b: seq<byte>, block: seq<byte>, leftover: bool)
    requires l.typeSize > 0 && Divides(l, |block|, leftover) && EncodedIn(libs, l, b, block, WriterSplits(l, leftover))
    ensures BlockOk(libs, l, b, block, leftover)
  {
    hide EncodedIn;
  }

  /** The modes and sizes for which writer and reader agree: any mode but ALWAYS, or splits a reader would make. */
  predicate SafeMode(mode: SplitMode, typeSize: nat, blockSize: nat)
    requires typeSize > 0
  {
    !mode.AlwaysSplit? || typeSize == 1 || (typeSize <= MAX_SPLITS && blockSize / typeSize >= MIN_BUFFERSIZE)
  }

  /** Then every block of the buffer divides; the flag was computed for the full block size. */
  lemma {:induction false} BlocksDivide(mode: SplitMode, c: CompCode, l: Layout, n: nat, j: nat)
    requires l.typeSize > 0 && l.blockSize > 0 && SafeMode(mode, l.typeSize, l.blockSize) && l.dontSplit == !SplitBlock(mode, c, l.typeSize, l.blockSize)
    requires WholeElements(l)
    requires j < BlockCount(n, l.blockSize)
    ensures Divides(l, BlockSize(n, l.blockSize, j), IsLeftover(n, l.blockSize, j)) && BlockSize(n, l.blockSize, j) > 0
  {
    var size := BlockSize(n, l.blockSize, j);
    OneSplit(size);
    if Splits(l, size, IsLeftover(n, l.blockSize, j)) != 1 {
      TimesIsProduct(l.blockSize / l.typeSize, l.typeSize);
      TimesIsProduct(l.typeSize, l.blockSize / l.typeSize);
      LargerThanElement(size, l.typeSize);
    }
  }

  lemma {:induction false} OneSplit(size: nat)
    ensures size / 1 == size && Times(1, size) == size
  {
    assert Times(0, size) == 0;
  }

  lemma {:induction false} LargerThanElement(size: nat, typeSize: nat)
    requires typeSize > 0 && size / typeSize >= MIN_BUFFERSIZE
    ensures size > typeSize
  {
  }

  /** ALWAYS can break the agreement: 17-byte elements in a buffer of 2176 bytes, with any codec. */
  lemma {:induction false} AlwaysSplitDisagrees(c: CompCode)
    ensures var l := LayoutFor(c, 5, 0, 17, 2176, 0, AlwaysSplit);
      && l == Layout(Format(c), NoFilter, 17, false, 2176) && WriterSplits(l, false) == 17 && Splits(l, 2176, false) == 1
      && SplitSize(l, 2176, false) == 128 && Cut(l, 2176, false)
  {
    assert ComputeBlockSize(AlwaysSplit, c, 5, 17, 2176, 0) == 2176 by {
      assert 2176 / 17 * 17 == 2176;
      assert 0x1_0000 / 17 > 0;
    }
    assert Times(17, 128) == 2176 by {
      TimesIsProduct(17, 128);
    }
  }

  // ----- laying the blocks out -----

  /** A block stays held when bytes are added behind the chunk and other index words are stored. */
  lemma {:induction false} HoldsLater(libs: Libraries, l: Layout, chunk: seq<byte>, chunk': seq<byte>, src: seq<byte>, i: nat, j: nat)
    requires l.blockSize > 0 && i < BlockCount(|src|, l.blockSize) && i != j && 16 + 4 * BlockCount(|src|, l.blockSize) <= |chunk| <= |chunk'|
    requires forall k :: 0 <= k < |chunk| && !(16 + 4 * j <= k < 16 + 4 * j + 4) ==> chunk'[k] == chunk[k]
    requires j < BlockCount(|src|, l.blockSize) && HoldsBlock(libs, l, chunk, src, i)
    ensures HoldsBlock(libs, l, chunk', src, i)
  {
    hide BlockOk, Block, BlockCount, IsLeftover, Start;
    StartKept(chunk, chunk', i, j);
    var start := Start(chunk, i);
    var block, left := Block(src, l.blockSize, i), IsLeftover(|src|, l.blockSize, i);
    var len: nat :| BlockIn(libs, l, chunk, start, len, block, left);
    assert chunk'[start..start + len] == chunk[start..start + len];
    assert BlockIn(libs, l, chunk', start, len, block, left);
  }

  lemma {:induction false} StartKept(chunk: seq<byte>, chunk': seq<byte>, i: nat, j: nat)
    requires i != j && 16 + 4 * i + 4 <= |chunk| <= |chunk'|
    requires forall k :: 0 <= k < |chunk| && !(16 + 4 * j <= k < 16 + 4 * j + 4) ==> chunk'[k] == chunk[k]
    ensures Start(chunk', i) == Start(chunk, i)
  {
    hide Le32;
    assert chunk'[16 + 4 * i..][..4] == chunk[16 + 4 * i..][..4];
    SameLoad(chunk'[16 + 4 * i..], chunk[16 + 4 * i..]);
  }

  lemma {:induction false} SameLoad(a: seq<byte>, b: seq<byte>)
    requires |a| >= 4 && |b| >= 4 && a[..4] == b[..4]
    ensures Le32(a) == Le32(b)
  {
    assert a[0] == a[..4][0] == b[0];
    assert a[1] == a[..4][1] == b[1];
    assert a[2] == a[..4][2] == b[2];
    assert a[3] == a[..4][3] == b[3];
  }

  ghost predicate HoldsFirst(libs: Libraries, l: Layout, chunk: seq<byte>, src: seq<byte>, j: nat)
    requires l.blockSize > 0 && j <= BlockCount(|src|, l.blockSize) && 16 + 4 * BlockCount(|src|, l.blockSize) <= |chunk|
  {
    forall i: nat :: i < j ==> HoldsBlock(libs, l, chunk, src, i)
  }

  /** The first `j` blocks lie in the first `nt` bytes. */
  ghost predicate Laid(libs: Libraries, l: Layout, out: seq<byte>, nt: nat, src: seq<byte>, j: nat)
    requires l.blockSize > 0 && j <= BlockCount(|src|, l.blockSize)
  {
    j == 0 || (16 + 4 * BlockCount(|src|, l.blockSize) + 4 <= nt <= |out| && HoldsFirst(libs, l, out[..nt], src, j))
  }

  /** One more block behind the others, its start stored. */
  lemma {:induction false} LaidNext(libs: Libraries, l: Layout, out: seq<byte>, was: seq<byte>, nt: nat, r: nat, src: seq<byte>, j: nat)
    requires l.blockSize > 0 && j < BlockCount(|src|, l.blockSize) && Laid(libs, l, was, nt, src, j) && 4 <= r
    requires 16 + 4 * BlockCount(|src|, l.blockSize) <= nt && nt + r <= |out| == |was|
    requires forall k :: 0 <= k < nt && !(16 + 4 * j <= k < 16 + 4 * j + 4) ==> out[k] == was[k]
    requires Start(out, j) == nt
    requires BlockOk(libs, l, out[nt..nt + r], Block(src, l.blockSize, j), IsLeftover(|src|, l.blockSize, j))
    ensures Laid(libs, l, out, nt + r, src, j + 1)
  {
    hide BlockOk, Block, BlockCount, IsLeftover, Start, BlockIn;
    var chunk := out[..nt + r];
    forall i: nat | i < j + 1
      ensures HoldsBlock(libs, l, chunk, src, i)
    {
      if i < j {
        HoldsLater(libs, l, was[..nt], chunk, src, i, j);
      } else {
        HoldsNew(libs, l, out, nt, r, src, j);
      }
    }
  }

  lemma {:induction false} HoldsNew(libs: Libraries, l: Layout, out: seq<byte>, nt: nat, r: nat, src: seq<byte>, j: nat)
    requires l.blockSize > 0 && j < BlockCount(|src|, l.blockSize)
    requires 16 + 4 * BlockCount(|src|, l.blockSize) <= nt && nt + r <= |out| && Start(out, j) == nt
    requires BlockOk(libs, l, out[nt..nt + r], Block(src, l.blockSize, j), IsLeftover(|src|, l.blockSize, j))
    ensures HoldsBlock(libs, l, out[..nt + r], src, j)
  {
    hide BlockOk, Block, BlockCount, IsLeftover, Start;
    var chunk := out[..nt + r];
    StartKept(chunk, out, j, j + 1);
    assert chunk[nt..nt + r] == out[nt..nt + r];
    assert BlockIn(libs, l, chunk, nt, r, Block(src, l.blockSize, j), IsLeftover(|src|, l.blockSize, j));
  }

  lemma {:induction false} NothingLaid(libs: Libraries, l: Layout, out: seq<byte>, nt: nat, src: seq<byte>)
    requires l.blockSize > 0
    ensures Laid(libs, l, out, nt, src, 0)
  {
  }

  lemma {:induction false} AllLaid(libs: Libraries, l: Layout, out: seq<byte>, nt: nat, src: seq<byte>)
    requires l.blockSize > 0 && BlockCount(|src|, l.blockSize) > 0 && Laid(libs, l, out, nt, src, BlockCount(|src|, l.blockSize))
    ensures nt <= |out| && HoldsBlocks(libs, l, out[..nt], src)
  {
    hide HoldsBlock, BlockCount;
  }

  lemma {:induction false} StartStored(out: seq<byte>, indexed: seq<byte>, j: nat, nt: nat)
    requires nt < 0x1_0000_0000 && 16 + 4 * j + 4 <= |out| == |indexed|
    requires indexed[16 + 4 * j..16 + 4 * j + 4] == Le32Bytes(nt)
    requires forall k :: 16 + 4 * j <= k < 16 + 4 * j + 4 ==> out[k] == indexed[k]
    ensures Start(out, j) == nt
  {
    hide Le32Bytes, Le32;
    assert out[16 + 4 * j..][..4] == indexed[16 + 4 * j..16 + 4 * j + 4] == Le32Bytes(nt);
    SameLoad(out[16 + 4 * j..], Le32Bytes(nt));
  }

  /** The index of a buffer of the greatest size stays far below the limits of 32-bit numbers. */
  lemma {:induction false} IndexFits(n: nat, blockSize: nat)
    requires 0 < blockSize && n <= MAX_BUFFERSIZE && (blockSize >= 64 || n < 256)
    ensures 16 + 4 * BlockCount(n, blockSize) < 0x1000_0000
  {
    hide BlockCount;
    if BlockCount(n, blockSize) > 0 {
      var last := BlockCount(n, blockSize) - 1;
      BlocksFit(n, blockSize, last);
      WiderBlocks(last, if blockSize >= 64 then 64 else 1, blockSize);
    }
  }

  lemma {:induction false} WiderBlocks(j: nat, a: nat, b: nat)
    requires a <= b
    ensures BlockStart(j, a) <= BlockStart(j, b)
  {
    hide BlockStart;
    NextStart(0, a);
    NextStart(0, b);
    if j > 0 {
      WiderBlocks(j - 1, a, b);
      NextStart(j - 1, a);
      NextStart(j - 1, b);
    }
  }

  // ----- when the sums wrap -----

  /** What keeps all sums of a call below 2^31: room for one more split, whole or the leftover, behind a full destination. */
  predicate SumsFit(libs: Libraries, c: CompCode, l: Layout, n: nat, room: nat)
    requires l.typeSize > 0 && l.blockSize > 0
  {
    && room + 4 + Want(libs, c, SplitSize(l, l.blockSize, false)) <= INT_MAX
    && (n % l.blockSize > 0 ==> room + 4 + Want(libs, c, n % l.blockSize) <= INT_MAX)
  }

  /** The sizes of the splits of all blocks are those two. */
  lemma {:induction false} FitsAny(libs: Libraries, c: CompCode, l: Layout, n: nat, room: nat, j: nat)
    requires l.typeSize > 0 && l.blockSize > 0 && SumsFit(libs, c, l, n, room)
    ensures room + 4 + Want(libs, c, SplitSize(l, BlockSize(n, l.blockSize, j), IsLeftover(n, l.blockSize, j))) <= INT_MAX
  {
    hide Want;
    if IsLeftover(n, l.blockSize, j) {
      OneSplit(n % l.blockSize);
    }
  }

  /** What blosc_c asks for a split is far below 2^31. */
  lemma {:induction false} AskedRoom(libs: Libraries, c: CompCode, l: Layout, n: nat, j: nat)
    requires Meets(libs) && l.typeSize > 0 && 0 < l.blockSize <= MAX_BLOCKSIZE && j < BlockCount(n, l.blockSize)
    ensures BlockSize(n, l.blockSize, j) <= l.blockSize
    ensures Want(libs, c, SplitSize(l, BlockSize(n, l.blockSize, j), IsLeftover(n, l.blockSize, j))) < 0x4000_0000
  {
    var ne := SplitSize(l, BlockSize(n, l.blockSize, j), IsLeftover(n, l.blockSize, j));
    assert libs.bound(ne) < 0x4000_0000;
  }

  /** Where block `k` begins when all before it were stored raw. */
  ghost function RawStart(l: Layout, n: nat, k: nat): nat
    requires l.typeSize > 0 && l.blockSize > 0
  {
    if k == 0 then 16 + 4 * BlockCount(n, l.blockSize)
    else SplitAt(RawStart(l, n, k - 1), SplitSize(l, l.blockSize, false), WriterSplits(l, false))
  }

  /** Split `j` of block `k` is reached, all before it stored raw, and asking room for it wraps. */
  ghost predicate RawWraps(libs: Libraries, c: CompCode, l: Layout, n: nat, room: nat, k: nat, j: nat)
    requires l.typeSize > 0 && l.blockSize > 0
  {
    && k < BlockCount(n, l.blockSize) && j < WriterSplits(l, IsLeftover(n, l.blockSize, k))
    && var ne := SplitSize(l, BlockSize(n, l.blockSize, k), IsLeftover(n, l.blockSize, k));
    SplitAt(RawStart(l, n, k), ne, j) <= room && SplitWraps(RawStart(l, n, k), ne, Want(libs, c, ne), room, j)
  }

  /** How far the raw copy of that split reaches behind the destination. */
  ghost function RawBehind(l: Layout, n: nat, room: nat, k: nat, j: nat): nat
    requires l.typeSize > 0 && l.blockSize > 0
  {
    var ne := SplitSize(l, BlockSize(n, l.blockSize, k), IsLeftover(n, l.blockSize, k));
    Behind(SplitAt(RawStart(l, n, k), ne, j) + 4 + ne, room)
  }

  /** With nothing smaller from the codec, the destination is passed exactly when some sum wraps. */
  ghost predicate RawBlocks(libs: Libraries, c: CompCode, l: Layout, n: nat, room: nat, o: Outcome)
    requires l.typeSize > 0 && l.blockSize > 0
  {
    if o.Overrun? then exists k: nat, j: nat :: RawWraps(libs, c, l, n, room, k, j) && o.behind == RawBehind(l, n, room, k, j)
    else forall k: nat, j: nat :: !RawWraps(libs, c, l, n, room, k, j)
  }

  /** No sum wraps in the first `k` blocks. */
  ghost predicate NoWraps(libs: Libraries, c: CompCode, l: Layout, n: nat, room: nat, k: nat)
    requires l.typeSize > 0 && l.blockSize > 0
  {
    forall i: nat, j: nat :: i < k ==> !RawWraps(libs, c, l, n, room, i, j)
  }

  lemma {:induction false} RawStartsGrow(l: Layout, n: nat, i: nat, k: nat)
    requires l.typeSize > 0 && l.blockSize > 0 && i <= k
    ensures RawStart(l, n, i) <= RawStart(l, n, k)
    decreases k
  {
    if i < k {
      RawStartsGrow(l, n, i, k - 1);
      SplitsLater(RawStart(l, n, k - 1), SplitSize(l, l.blockSize, false), 0, WriterSplits(l, false));
    }
  }

  /** The next block, put where the raw splits before it end. */
  lemma {:induction false} RawNext(libs: Libraries, c: CompCode, l: Layout, n: nat, room: nat, k: nat, o: Outcome)
    requires l.typeSize > 0 && l.blockSize > 0 && k < BlockCount(n, l.blockSize) && NoWraps(libs, c, l, n, room, k)
    requires var size, left := BlockSize(n, l.blockSize, k), IsLeftover(n, l.blockSize, k);
      && RawSplits(RawStart(l, n, k), SplitSize(l, size, left), WriterSplits(l, left), Want(libs, c, SplitSize(l, size, left)), room, o)
      && (RawStart(l, n, k) <= room || RawStart(l, n, k) + 4 + Want(libs, c, SplitSize(l, size, left)) <= INT_MAX)
    ensures o.Stored? ==> NoWraps(libs, c, l, n, room, k + 1) && (k + 1 < BlockCount(n, l.blockSize) ==> RawStart(l, n, k) + o.size == RawStart(l, n, k + 1))
    ensures !o.Stored? ==> RawBlocks(libs, c, l, n, room, o)
  {
    hide BlockCount, SplitAt, Want, SplitSize, WriterSplits;
    var size, left := BlockSize(n, l.blockSize, k), IsLeftover(n, l.blockSize, k);
    var at, ne := RawStart(l, n, k), SplitSize(l, size, left);
    SplitsLater(at, ne, 0, 0);
    if o.Overrun? {
      var j: nat :| j < WriterSplits(l, left) && SplitWraps(at, ne, Want(libs, c, ne), room, j) && o.behind == Behind(SplitAt(at, ne, j) + 4 + ne, room);
      assert RawWraps(libs, c, l, n, room, k, j) && o.behind == RawBehind(l, n, room, k, j);
    } else if o.NoRoom? {
      forall i: nat, j: nat
        ensures !RawWraps(libs, c, l, n, room, i, j)
      {
        if k < i < BlockCount(n, l.blockSize) {
          NotReached(libs, c, l, n, room, k, i, j);
        }
      }
    }
  }

  /** A block that does not fit raw stops the ones behind it. */
  lemma {:induction false} NotReached(libs: Libraries, c: CompCode, l: Layout, n: nat, room: nat, k: nat, i: nat, j: nat)
    requires l.typeSize > 0 && l.blockSize > 0 && k < i < BlockCount(n, l.blockSize)
    requires SplitAt(RawStart(l, n, k), SplitSize(l, l.blockSize, false), WriterSplits(l, false)) > room
    ensures !RawWraps(libs, c, l, n, room, i, j)
  {
    hide BlockCount, SplitAt, Want, SplitSize, WriterSplits;
    RawStartsGrow(l, n, k + 1, i);
    SplitsLater(RawStart(l, n, i), SplitSize(l, BlockSize(n, l.blockSize, i), IsLeftover(n, l.blockSize, i)), 0, j);
  }

  /** All blocks are stored and no sum has wrapped. */
  lemma {:induction false} RawEnds(libs: Libraries, c: CompCode, l: Layout, n: nat, room: nat, size: nat)
    requires l.typeSize > 0 && l.blockSize > 0 && NoWraps(libs, c, l, n, room, BlockCount(n, l.blockSize))
    ensures RawBlocks(libs, c, l, n, room, Stored(size))
  {
  }

  lemma {:induction false} NoneYet(libs: Libraries, c: CompCode, l: Layout, n: nat, room: nat)
    requires l.typeSize > 0 && l.blockSize > 0
    ensures NoWraps(libs, c, l, n, room, 0)
  {
  }

  /** Without an overrun it does not matter whether there was room. */
  lemma {:induction false} RawSame(libs: Libraries, c: CompCode, l: Layout, n: nat, room: nat, o: Outcome, p: Outcome)
    requires l.typeSize > 0 && l.blockSize > 0 && !o.Overrun? && !p.Overrun? && RawBlocks(libs, c, l, n, room, o)
    ensures RawBlocks(libs, c, l, n, room, p)
  {
    hide RawWraps;
  }

  // ----- an input for which they wrap -----

  /** The layout of the buffer of 2147483631 bytes, the greatest there is, with BloscLZ at level 5 and one-byte elements. */
  lemma {:induction false} TopLayout()
    ensures LayoutFor(BloscLz, 5, 0, 1, MAX_BUFFERSIZE, 0, ForwardCompatSplit) == Layout(0, NoFilter, 1, false, 131072)
    ensures SafeMode(ForwardCompatSplit, 1, 131072) && BlockCount(MAX_BUFFERSIZE, 131072) == 16384 && MAX_BUFFERSIZE % 131072 == 131055
  {
    assert ComputeBlockSize(ForwardCompatSplit, BloscLz, 5, 1, MAX_BUFFERSIZE, 0) == 131072 by {
      assert 131072 / 1 * 1 == 131072;
    }
    assert 16383 * 131072 + 131055 == MAX_BUFFERSIZE;
  }

  /** Unsplit raw blocks follow each other four bytes apart. */
  lemma {:induction false} UnsplitRawStart(l: Layout, n: nat, k: nat)
    requires l.typeSize == 1 && l.blockSize == 131072
    ensures RawStart(l, n, k) == 16 + 4 * BlockCount(n, l.blockSize) + 131076 * k
  {
    hide BlockCount;
    if k > 0 {
      UnsplitRawStart(l, n, k - 1);
      OneSplit(l.blockSize);
      assert Times(1, 131076) == 131076 by {
        assert Times(0, 131076) == 0;
      }
    }
  }

  /** Of that buffer, stored raw in a destination with the 16 spare bytes, exactly block 16382 makes a sum wrap:
      it begins at 2147352584, and its raw copy would end 13 bytes behind the destination. */
  lemma {:induction false} TopBufferWraps(libs: Libraries, k: nat, j: nat)
    ensures var l := LayoutFor(BloscLz, 5, 0, 1, MAX_BUFFERSIZE, 0, ForwardCompatSplit);
      && (RawWraps(libs, BloscLz, l, MAX_BUFFERSIZE, INT_MAX, k, j) <==> k == 16382 && j == 0)
      && RawBehind(l, MAX_BUFFERSIZE, INT_MAX, 16382, 0) == 13
      && !SumsFit(libs, BloscLz, l, MAX_BUFFERSIZE, INT_MAX)
  {
    hide LayoutFor, BlockCount, RawStart, BlockSize, IsLeftover;
    TopLayout();
    var l := Layout(0, NoFilter, 1, false, 131072);
    UnsplitRawStart(l, MAX_BUFFERSIZE, k);
    UnsplitRawStart(l, MAX_BUFFERSIZE, 16382);
    TopBlock(k);
    TopBlock(16382);
    OneSplit(131072);
    OneSplit(131055);
    assert Times(0, 131076) == 0 && Times(0, 131059) == 0;
  }

  /** Its blocks: 16383 of 128 KB and a shorter one. */
  lemma {:induction false} TopBlock(k: nat)
    ensures BlockSize(MAX_BUFFERSIZE, 131072, k) == if k == 16383 then 131055 else 131072
    ensures IsLeftover(MAX_BUFFERSIZE, 131072, k) <==> k == 16383
  {
    hide BlockCount;
    TopLayout();
  }

  // ----- the context -----

  /** blosc_context as far as compression in one thread uses it. */
  class Context {
    var params: Params
    var src: seq<byte>
    var dest: array<byte>
    var destsize: nat
    var numOutputBytes: nat

    constructor (dest: array<byte>)
      ensures this.dest == dest
    {
      this.dest := dest;
      params, src, destsize, numOutputBytes := Params(0, BloscLz, Layout(0, NoFilter, 1, true, 1)), [], 0, 0;
    }

    /** What initialization establishes. */
    ghost predicate Ready(mode: SplitMode)
      reads this
    {
      var l := params.layout;
      && params.clevel <= 9 && l.format == Format(params.codec)
      && 0 < l.typeSize <= MAX_TYPESIZE && 0 < l.blockSize <= MAX_BLOCKSIZE && (src != [] ==> l.blockSize <= |src|)
      && (l.blockSize >= 64 || |src| < 256)
      && WholeElements(l)
      && l.dontSplit == !SplitBlock(mode, params.codec, l.typeSize, l.blockSize) && SafeMode(mode, l.typeSize, l.blockSize)
      && |src| <= MAX_BUFFERSIZE && 16 <= destsize <= |src| + 16 && destsize <= dest.Length
    }

    function Blocks(): nat
      requires params.layout.blockSize > 0
      reads this
    {
      BlockCount(|src|, params.layout.blockSize)
    }

    /** initialize_context_compression, with the number of threads left to the caller; 1, 0 or an error. */
    method Initialize(clevel: int, doshuffle: int, typeSize0: int, src: seq<byte>, destsize0: nat, codec: CompCode, forced: nat, mode: SplitMode)
      returns (status: int)
      requires destsize0 <= dest.Length
      modifies this
      ensures dest == old(dest) && (status == 1 || status == 0 || status == -10)
      ensures status == 0 <==> |src| > 2147483631 || destsize0 < 16
      ensures status == 1 <==> |src| <= MAX_BUFFERSIZE && destsize0 >= MAX_OVERHEAD && 0 <= clevel <= 9 && 0 <= doshuffle <= 2 && typeSize0 > 0
      ensures status == 1 ==> this.src == src && params.clevel == clevel && params.codec == codec
      ensures status == 1 ==> destsize == (if destsize0 - MAX_OVERHEAD > |src| then |src| + MAX_OVERHEAD else destsize0)
      ensures status == 1 ==> params.layout == LayoutFor(codec, clevel, doshuffle, typeSize0, |src|, forced, mode)
      ensures status == 1 && SafeMode(mode, params.layout.typeSize, params.layout.blockSize) ==> Ready(mode)
    {
      hide LayoutFor, WholeElements, SplitBlock, SafeMode;
      if |src| > MAX_BUFFERSIZE || destsize0 < MAX_OVERHEAD {
        return 0;
      }
      if clevel < 0 || clevel > 9 || (doshuffle != 0 && doshuffle != 1 && doshuffle != 2) || typeSize0 <= 0 {
        return -10;
      }
      this.src := src;
      destsize := if destsize0 - MAX_OVERHEAD > |src| then |src| + MAX_OVERHEAD else destsize0;
      LayoutMade(codec, clevel, doshuffle, typeSize0, |src|, forced, mode);
      params := Params(clevel, codec, LayoutFor(codec, clevel, doshuffle, typeSize0, |src|, forced, mode));
      status := 1;
    }

    /** The flags bit that decides between compressing and copying. */
    predicate Memcpyed()
      requires dest.Length > 2
      reads this, dest
    {
      dest[2] / 2 % 2 == 1
    }

    /** write_compression_header; the compressed size follows at the end. */
    method WriteHeader(ghost mode: SplitMode)
      requires Ready(mode)
      modifies this`numOutputBytes, dest
      ensures HeaderStart(dest[..], params.layout, params.clevel == 0 || |src| < MIN_BUFFERSIZE, |src|)
      ensures Memcpyed() <==> params.clevel == 0 || |src| < MIN_BUFFERSIZE
      ensures numOutputBytes == if Memcpyed() then 16 else 16 + 4 * Blocks()
      ensures SameFrom(dest[..], old(dest[..]), 16)
    {
      hide Le32Bytes, Le32, LowFlags, Times, HeaderStart;
      var memcpyed := params.clevel == 0 || |src| < MIN_BUFFERSIZE;
      FlagsRead(params.layout, memcpyed);
      dest[0], dest[1], dest[2], dest[3] := VERSION_FORMAT, 1, Flags(params.layout, memcpyed), params.layout.typeSize;
      ghost var first := dest[..];
      StoreAt(dest, 4, Le32Bytes(|src|));
      ghost var second := dest[..];
      StoreAt(dest, 8, Le32Bytes(params.layout.blockSize));
      HeaderWords(dest[..], second, first, params.layout, memcpyed, |src|);
      numOutputBytes := if memcpyed then 16 else 16 + 4 * Blocks();
    }

    /** serial_blosc when blocks are compressed. The first start is stored before any space is checked. */
    method CompressBlocks(libs: Libraries, ghost mode: SplitMode) returns (o: Outcome, ghost raw: bool)
      requires Meets(libs) && Ready(mode) && params.clevel >= 1 && Blocks() > 0 && numOutputBytes == 16 + 4 * Blocks()
      modifies dest
      ensures o.Stored? ==> 16 <= o.size <= destsize && HoldsBlocks(libs, params.layout, dest[..o.size], src)
      ensures destsize < 20 ==> o == Overrun(20 - destsize)
      ensures destsize >= 20 && SumsFit(libs, params.codec, params.layout, |src|, destsize) ==> !o.Overrun?
      ensures destsize >= 20 && raw ==> RawBlocks(libs, params.codec, params.layout, |src|, destsize, o)
      ensures StubbornBlocks(libs, params, src) ==> raw
      ensures !o.Overrun? ==> SameOutside(dest[..], old(dest[..]), 16, destsize)
    {
      hide BlockCount, BlockStart, Meets, BlockOk, Laid, HoldsBlocks, Divides, IsLeftover, BlockSize, Block, Start, Times, SumsFit, RawSplits, RawBlocks, NoWraps, RawWraps, RawBehind, Want, Stubborn;
      var j, ntbytes := 0, numOutputBytes;
      raw := true;
      NoneYet(libs, params.codec, params.layout, |src|, destsize);
      IndexFits(|src|, params.layout.blockSize);
      NothingLaid(libs, params.layout, dest[..], ntbytes, src);
      while j < Blocks()
        invariant j <= Blocks() && 16 + 4 * Blocks() <= ntbytes <= INT_MAX && (if j == 0 then ntbytes < 0x1000_0000 else ntbytes <= destsize)
        invariant Laid(libs, params.layout, dest[..], ntbytes, src, j) && (j > 0 ==> destsize >= 20)
        invariant SameOutside(dest[..], old(dest[..]), 16, destsize)
        invariant StubbornBlocks(libs, params, src) ==> raw
        invariant raw ==> NoWraps(libs, params.codec, params.layout, |src|, destsize, j)
        invariant raw && j < Blocks() ==> ntbytes == RawStart(params.layout, |src|, j)
      {
        var block: Outcome;
        ghost var rawBlock;
        block, rawBlock := PutBlock(libs, mode, j, ntbytes);
        raw := raw && rawBlock;
        if raw && destsize >= 20 {
          RawNext(libs, params.codec, params.layout, |src|, destsize, j, block);
        }
        if !block.Stored? {
          return block, raw;
        }
        j, ntbytes := j + 1, ntbytes + block.size;
      }
      AllLaid(libs, params.layout, dest[..], ntbytes, src);
      if raw {
        RawEnds(libs, params.codec, params.layout, |src|, destsize, ntbytes);
      }
      o := Stored(ntbytes);
    }

    /** One turn of the block loop: the start, then the compressed block. */
    method PutBlock(libs: Libraries, ghost mode: SplitMode, j: nat, ntbytes: nat) returns (o: Outcome, ghost raw: bool)
      requires Meets(libs) && Ready(mode) && params.clevel >= 1 && j < Blocks() && 16 + 4 * Blocks() <= ntbytes <= INT_MAX
      requires (if j == 0 then ntbytes < 0x1000_0000 else ntbytes <= destsize) && Laid(libs, params.layout, dest[..], ntbytes, src, j)
      modifies dest
      ensures o.Stored? ==> ntbytes + o.size <= destsize && destsize >= 20 && Laid(libs, params.layout, dest[..], ntbytes + o.size, src, j + 1)
      ensures destsize < 20 ==> o == Overrun(20 - destsize)
      ensures destsize >= 20 && SumsFit(libs, params.codec, params.layout, |src|, destsize) ==> !o.Overrun?
      ensures var l := params.layout;
        var size, left := BlockSize(|src|, l.blockSize, j), IsLeftover(|src|, l.blockSize, j);
        && (destsize >= 20 && raw ==> RawSplits(ntbytes, SplitSize(l, size, left), WriterSplits(l, left), Want(libs, params.codec, SplitSize(l, size, left)), destsize, o))
        && (ntbytes <= destsize || ntbytes + 4 + Want(libs, params.codec, SplitSize(l, size, left)) <= INT_MAX)
      ensures Stubborn(libs, params, Block(src, params.layout.blockSize, j)) ==> raw
      ensures !o.Overrun? ==> SameOutside(dest[..], old(dest[..]), 16, destsize)
    {
      hide BlockCount, BlockStart, Meets, BlockOk, Laid, Divides, IsLeftover, BlockSize, Block, Start, Le32Bytes, Times, SumsFit, RawSplits, Want, Stubborn, SplitSize, EncodedIn, WriterSplits, SafeMode, SplitBlock, HoldsFirst, WholeElements, Cut;
      raw := true;
      ghost var was := dest[..];
      var l := params.layout;
      BlocksDivide(mode, params.codec, l, |src|, j);
      AskedRoom(libs, params.codec, l, |src|, j);
      if 16 + 4 * j + 4 > destsize {
        return Overrun(16 + 4 * j + 4 - destsize), raw;
      }
      StoreAt(dest, 16 + 4 * j, Le32Bytes(ntbytes));
      ghost var indexed := dest[..];
      o, raw := CompressBlock(libs, params, Block(src, l.blockSize, j), IsLeftover(|src|, l.blockSize, j), ntbytes, destsize, dest);
      if SumsFit(libs, params.codec, l, |src|, destsize) {
        FitsAny(libs, params.codec, l, |src|, destsize, j);
      }
      if o.Stored? {
        StartStored(dest[..], indexed, j, ntbytes);
        AsExpected(libs, l, dest[ntbytes..ntbytes + o.size], Block(src, l.blockSize, j), IsLeftover(|src|, l.blockSize, j));
        LaidNext(libs, l, dest[..], was, ntbytes, o.size, src, j);
      }
    }

    /** do_job with one thread. */
    method DoJob(libs: Libraries, ghost mode: SplitMode) returns (o: Outcome, ghost raw: bool)
      requires Meets(libs) && Ready(mode)
      requires if Memcpyed() then |src| + MAX_OVERHEAD <= destsize
        else params.clevel >= 1 && Blocks() > 0 && numOutputBytes == 16 + 4 * Blocks()
      modifies dest
      ensures old(Memcpyed()) ==> o == Stored(16 + |src|) && dest[16..o.size] == src
      ensures !old(Memcpyed()) && o.Stored? ==> 16 <= o.size <= destsize && HoldsBlocks(libs, params.layout, dest[..o.size], src)
      ensures !old(Memcpyed()) && destsize < 20 ==> o == Overrun(20 - destsize)
      ensures destsize >= 20 && SumsFit(libs, params.codec, params.layout, |src|, destsize) ==> !o.Overrun?
      ensures !old(Memcpyed()) && destsize >= 20 && raw ==> RawBlocks(libs, params.codec, params.layout, |src|, destsize, o)
      ensures StubbornBlocks(libs, params, src) ==> raw
      ensures !o.Overrun? ==> SameOutside(dest[..], old(dest[..]), 16, destsize)
    {
      hide SumsFit, RawBlocks, StubbornBlocks, Meets, HoldsBlocks;
      raw := true;
      if Memcpyed() {
        var ntbytes := CopyByBlocks(src, dest, MAX_OVERHEAD, params.layout.blockSize);
        o := Stored(MAX_OVERHEAD + ntbytes);
      } else {
        o, raw := CompressBlocks(libs, mode);
      }
    }

    /** blosc_compress_context: compress, or copy when that does not make the buffer fit. */
    method CompressContext(libs: Libraries, ghost mode: SplitMode) returns (o: Outcome, ghost memcpyed: bool, ghost raw: bool)
      requires Meets(libs) && Ready(mode) && HeaderStart(dest[..], params.layout, Memcpyed(), |src|)
      requires Memcpyed() <==> params.clevel == 0 || |src| < MIN_BUFFERSIZE
      requires numOutputBytes == (if Memcpyed() then 16 else 16 + 4 * Blocks())
      modifies this`numOutputBytes, dest
      ensures o.Stored? ==> 16 <= o.size <= destsize && Holds(libs, params.layout, memcpyed, dest[..o.size], src)
      ensures o.NoRoom? ==> |src| + MAX_OVERHEAD > destsize
      ensures old(Memcpyed()) ==> !o.Overrun? && memcpyed
      ensures !old(Memcpyed()) && destsize < 20 ==> o == Overrun(20 - destsize)
      ensures destsize >= 20 && SumsFit(libs, params.codec, params.layout, |src|, destsize) ==> !o.Overrun?
      ensures !old(Memcpyed()) && destsize >= 20 && raw ==> RawBlocks(libs, params.codec, params.layout, |src|, destsize, o)
      ensures StubbornBlocks(libs, params, src) ==> raw
      ensures !o.Overrun? ==> SameFrom(dest[..], old(dest[..]), destsize)
    {
      hide Meets, HoldsBlocks, BlockCount, WholeElements, SplitBlock, SafeMode, SumsFit, RawBlocks, StubbornBlocks, HeaderStart, HeaderOk;
      memcpyed, raw := Memcpyed(), true;
      ghost var was := dest[..];
      if Memcpyed() && |src| + MAX_OVERHEAD > destsize {
        return NoRoom, memcpyed, raw;
      }
      NoBlocks(|src|, params.layout.blockSize);
      o, raw := DoJob(libs, mode);
      if !o.Overrun? {
        assert dest[..16] == was[..16];
        HeaderKept(was, dest[..], params.layout, memcpyed, |src|);
      }
      if o.NoRoom? && |src| + MAX_OVERHEAD <= destsize {
        SetMemcpyed();
        memcpyed := true;
        was := dest[..];
        numOutputBytes := MAX_OVERHEAD;
        ghost var rawCopy;
        ghost var o1 := o;
        o, rawCopy := DoJob(libs, mode);
        if raw && destsize >= 20 {
          RawSame(libs, params.codec, params.layout, |src|, destsize, o1, o);
        }
        assert dest[..16] == was[..16];
        HeaderKept(was, dest[..], params.layout, memcpyed, |src|);
      }
      if !o.Overrun? {
        Finish(libs, mode, if o.Stored? then o.size else 0, memcpyed);
      }
    }

    /** The copy flag is set in the header. */
    method SetMemcpyed()
      requires dest.Length >= 16 && HeaderStart(dest[..], params.layout, false, |src|)
      modifies dest
      ensures HeaderStart(dest[..], params.layout, true, |src|) && Memcpyed()
      ensures SameOutside(dest[..], old(dest[..]), 2, 3)
    {
      hide Le32, LowFlags;
      FlagsRead(params.layout, true);
      FlagSet(dest[..], params.layout, |src|);
      ghost var was := dest[..];
      dest[2] := dest[2] + 2;
      assert dest[..] == was[2 := was[2] + 2];
    }

    /** The compressed size completes the header. */
    method Finish(libs: Libraries, ghost mode: SplitMode, ntbytes: nat, ghost memcpyed: bool)
      requires Ready(mode) && ntbytes <= destsize && (ntbytes > 0 ==> 16 <= ntbytes) && HeaderStart(dest[..], params.layout, memcpyed, |src|)
      requires ntbytes > 0 && memcpyed ==> ntbytes == 16 + |src| && dest[16..ntbytes] == src
      requires ntbytes > 0 && !memcpyed ==> HoldsBlocks(libs, params.layout, dest[..ntbytes], src)
      modifies dest
      ensures ntbytes > 0 ==> Holds(libs, params.layout, memcpyed, dest[..ntbytes], src)
      ensures SameOutside(dest[..], old(dest[..]), 12, 16)
    {
      hide Le32Bytes, Le32, LowFlags, Times, HoldsBlocks;
      ghost var was := dest[..];
      StoreAt(dest, 12, Le32Bytes(ntbytes));
      if ntbytes > 0 {
        HeaderDone(dest[..], was, params.layout, memcpyed, |src|, ntbytes);
        if memcpyed {
          assert dest[..ntbytes][16..] == was[16..ntbytes];
        } else {
          BlocksKept(libs, params.layout, dest[..ntbytes], was[..ntbytes], src);
        }
      }
    }
  }

  lemma {:induction false} HeaderWords(out: seq<byte>, second: seq<byte>, first: seq<byte>, l: Layout, memcpyed: bool, nbytes: nat)
    requires |out| == |second| == |first| >= 16 && l.format <= 4 && l.typeSize <= MAX_TYPESIZE && nbytes < 0x8000_0000 && l.blockSize < 0x8000_0000
    requires first[0] == VERSION_FORMAT && first[1] == 1 && first[2] == Flags(l, memcpyed) && first[3] == l.typeSize
    requires SameOutside(second, first, 4, 8) && second[4..8] == Le32Bytes(nbytes)
    requires SameOutside(out, second, 8, 12) && out[8..12] == Le32Bytes(l.blockSize)
    ensures HeaderStart(out, l, memcpyed, nbytes)
  {
    hide Le32Bytes, Le32, Flags;
    SameLoad(out[4..], Le32Bytes(nbytes)) by {
      assert out[4..][..4] == second[4..8];
    }
    SameLoad(out[8..], Le32Bytes(l.blockSize)) by {
      assert out[8..][..4] == out[8..12];
    }
  }

  lemma {:induction false} FlagSet(was: seq<byte>, l: Layout, nbytes: nat)
    requires HeaderStart(was, l, false, nbytes)
    ensures was[2] + 2 < 256 && HeaderStart(was[2 := was[2] + 2], l, true, nbytes)
  {
    hide Le32, LowFlags;
    FlagsDiffer(l);
    var now := was[2 := was[2] + 2];
    assert now[4..] == was[4..] && now[8..] == was[8..];
  }

  lemma {:induction false} FlagsDiffer(l: Layout)
    requires l.format <= 4
    ensures Flags(l, true) == Flags(l, false) + 2
  {
  }

  lemma {:induction false} HeaderDone(out: seq<byte>, was: seq<byte>, l: Layout, memcpyed: bool, nbytes: nat, ntbytes: nat)
    requires 16 <= ntbytes <= |out| == |was| && ntbytes < 0x8000_0000 && HeaderStart(was, l, memcpyed, nbytes)
    requires SameOutside(out, was, 12, 16) && out[12..16] == Le32Bytes(ntbytes)
    ensures HeaderOk(out[..ntbytes], l, memcpyed, nbytes, ntbytes)
  {
    hide Le32Bytes, Le32, Flags;
    var chunk := out[..ntbytes];
    SameLoad(chunk[4..], was[4..]) by {
      assert chunk[4..][..4] == was[4..][..4];
    }
    SameLoad(chunk[8..], was[8..]) by {
      assert chunk[8..][..4] == was[8..][..4];
    }
    SameLoad(chunk[12..], Le32Bytes(ntbytes)) by {
      assert chunk[12..][..4] == out[12..16];
    }
  }

  /** The header's last word is no part of what the blocks are. */
  lemma {:induction false} BlocksKept(libs: Libraries, l: Layout, chunk': seq<byte>, chunk: seq<byte>, src: seq<byte>)
    requires l.blockSize > 0 && HoldsBlocks(libs, l, chunk, src) && |chunk| == |chunk'|
    requires forall k :: 0 <= k < |chunk| && !(12 <= k < 16) ==> chunk'[k] == chunk[k]
    ensures HoldsBlocks(libs, l, chunk', src)
  {
    hide BlockCount, BlockIn, Start;
    forall i: nat | i < BlockCount(|src|, l.blockSize)
      ensures HoldsBlock(libs, l, chunk', src, i)
    {
      BlockKept(libs, l, chunk', chunk, src, i);
    }
  }

  lemma {:induction false} BlockKept(libs: Libraries, l: Layout, chunk': seq<byte>, chunk: seq<byte>, src: seq<byte>, i: nat)
    requires l.blockSize > 0 && i < BlockCount(|src|, l.blockSize) && 16 + 4 * BlockCount(|src|, l.blockSize) <= |chunk| == |chunk'|
    requires forall k :: 0 <= k < |chunk| && !(12 <= k < 16) ==> chunk'[k] == chunk[k]
    requires HoldsBlock(libs, l, chunk, src, i)
    ensures HoldsBlock(libs, l, chunk', src, i)
  {
    hide BlockOk, Block, BlockCount, IsLeftover, Le32;
    assert chunk'[16 + 4 * i..] == chunk[16 + 4 * i..];
    var start := Start(chunk, i);
    assert Start(chunk', i) == start;
    var block, left := Block(src, l.blockSize, i), IsLeftover(|src|, l.blockSize, i);
    var len: nat :| BlockIn(libs, l, chunk, start, len, block, left);
    assert chunk'[start..start + len] == chunk[start..start + len];
    assert BlockIn(libs, l, chunk', start, len, block, left);
  }

  /** Stores behind the header leave its fields alone. */
  lemma {:induction false} HeaderKept(was: seq<byte>, now: seq<byte>, l: Layout, memcpyed: bool, nbytes: nat)
    requires HeaderStart(was, l, memcpyed, nbytes) && |now| == |was| && now[..16] == was[..16]
    ensures HeaderStart(now, l, memcpyed, nbytes)
  {
    hide Flags, Le32;
    assert forall i :: 0 <= i < 16 ==> now[..16][i] == was[..16][i];
    SameLoad(now[4..], was[4..]) by {
      assert now[4..][..4] == now[..16][4..8] == was[4..][..4];
    }
    SameLoad(now[8..], was[8..]) by {
      assert now[8..][..4] == now[..16][8..12] == was[8..][..4];
    }
  }

  /** All header fields but the compressed size. */
  ghost predicate HeaderStart(chunk: seq<byte>, l: Layout, memcpyed: bool, nbytes: nat) {
    && |chunk| >= 16 && l.format <= 4 && l.typeSize <= MAX_TYPESIZE
    && chunk[0] == VERSION_FORMAT && chunk[1] == 1 && chunk[2] == Flags(l, memcpyed) && chunk[3] == l.typeSize
    && Le32(chunk[4..]) == nbytes && Le32(chunk[8..]) == l.blockSize
  }

  /** The call gets as far as compressing blocks. */
  predicate Tries(clevel: int, doshuffle: int, typeSize: int, n: nat, destsize: nat) {
    MIN_BUFFERSIZE <= n <= MAX_BUFFERSIZE && destsize >= MAX_OVERHEAD && 1 <= clevel <= 9 && 0 <= doshuffle <= 2 && typeSize > 0
  }

  /** The destination size that the call works with. */
  function Room(n: nat, destsize: nat): nat {
    if destsize > n + MAX_OVERHEAD then n + MAX_OVERHEAD else destsize
  }

  /** blosc_compress_ctx with one thread. The result is an error (negative), 0 when the buffer does not fit, or
      the size of a chunk that holds the buffer; with 16 bytes to spare it always fits. That is so unless the
      call passes the end of the destination: in less than 20 bytes it always does, otherwise only when a sum
      of sizes wraps, and on a buffer that is stored raw exactly then. */
  method Compress(libs: Libraries, clevel: int, doshuffle: int, typeSize: int, src: seq<byte>, dest: array<byte>, destsize: nat,
                  codec: CompCode, forced: nat, mode: SplitMode)
    returns (r: int, overrun: bool, behind: nat, ghost l: Layout, ghost memcpyed: bool, ghost raw: bool)
    requires Meets(libs) && destsize <= dest.Length
    requires 0 <= clevel <= 9 && typeSize > 0 ==>
      var l := LayoutFor(codec, clevel, doshuffle, typeSize, |src|, forced, mode); SafeMode(mode, l.typeSize, l.blockSize)
    modifies dest
    ensures !overrun ==> r <= destsize && r <= |src| + MAX_OVERHEAD
    ensures !overrun && r > 0 ==> Holds(libs, l, memcpyed, dest[..r], src)
    ensures !overrun && r > 0 && (clevel == 0 || |src| < 128) ==> memcpyed
    ensures |src| > 2147483631 || destsize < 16 ==> !overrun && r == 0
    ensures |src| <= 2147483631 && destsize >= 16 && (clevel < 0 || clevel > 9 || doshuffle < 0 || doshuffle > 2 || typeSize <= 0) ==> !overrun && r == -10
    ensures !overrun && destsize >= |src| + MAX_OVERHEAD && |src| <= MAX_BUFFERSIZE && 0 <= clevel <= 9 && 0 <= doshuffle <= 2 && typeSize > 0 ==> r > 0
    ensures !overrun ==> SameFrom(dest[..], old(dest[..]), destsize)
    ensures overrun ==> Tries(clevel, doshuffle, typeSize, |src|, destsize)
    ensures Tries(clevel, doshuffle, typeSize, |src|, destsize) || r > 0 ==>
      0 <= clevel <= 9 && typeSize > 0 && l == LayoutFor(codec, clevel, doshuffle, typeSize, |src|, forced, mode)
    ensures Tries(clevel, doshuffle, typeSize, |src|, destsize) && destsize < 20 ==> overrun && behind == 20 - destsize
    ensures Tries(clevel, doshuffle, typeSize, |src|, destsize) && destsize >= 20 && SumsFit(libs, codec, l, |src|, Room(|src|, destsize)) ==> !overrun
    ensures Tries(clevel, doshuffle, typeSize, |src|, destsize) && destsize >= 20 && raw ==>
      RawBlocks(libs, codec, l, |src|, Room(|src|, destsize), if overrun then Overrun(behind) else NoRoom)
    ensures Tries(clevel, doshuffle, typeSize, |src|, destsize) && StubbornBlocks(libs, Params(clevel, codec, l), src) ==> raw
  {
    hide Meets, Holds, LayoutFor, SafeMode, Times, SumsFit, RawBlocks, StubbornBlocks, HeaderStart;
    overrun, behind, raw := false, 0, true;
    var ctx := new Context(dest);
    r := ctx.Initialize(clevel, doshuffle, typeSize, src, destsize, codec, forced, mode);
    l, memcpyed := ctx.params.layout, false;
    if r <= 0 {
      return;
    }
    ctx.WriteHeader(mode);
    var o: Outcome;
    o, memcpyed, raw := ctx.CompressContext(libs, mode);
    if raw && Tries(clevel, doshuffle, typeSize, |src|, destsize) && destsize >= 20 && !o.Overrun? {
      RawSame(libs, codec, l, |src|, Room(|src|, destsize), o, NoRoom);
    }
    match o {
      case Stored(size) => r := size;
      case NoRoom => r := 0;
      case Overrun(n) => r, overrun, behind := 0, true, n;
    }
  }

  // ----- a buffer that is stored raw -----

  /** Byte `i` of a block of up to 6 MB: numbers of 21 bits, seven to a byte, the first byte of each marked. */
  function Pattern(i: nat): (b: byte)
    requires i < 131072
  {
    if i % 3 == 0 then 128 + i / 3 / 16384 else if i % 3 == 1 then i / 3 / 128 % 128 else i / 3 % 128
  }

  /** Where in the block three bytes of it are. */
  function Place(a: byte, b: byte, c: byte): int {
    if a >= 128 then 3 * ((a - 128) * 16384 + b * 128 + c)
    else if c >= 128 then 3 * ((c - 128 - if a == 127 && b == 127 then 1 else 0) * 16384 + a * 128 + b) + 1
    else 3 * ((b - 128 - if a == 127 && c == 0 then 1 else 0) * 16384 + (c - if a == 127 then 1 else 0) % 128 * 128 + a) + 2
  }

  lemma {:induction false} Digits(q: nat)
    requires q < 43691
    ensures q == q / 16384 * 16384 + q / 128 % 128 * 128 + q % 128 && q / 16384 < 3
  {
  }

  lemma {:induction false} DigitsOf(x: nat, y: nat, z: nat)
    requires x < 3 && y < 128 && z < 128
    ensures var q := x * 16384 + y * 128 + z; q / 16384 == x && q / 128 % 128 == y && q % 128 == z
  {
    var q := x * 16384 + y * 128 + z;
    assert q / 128 == x * 128 + y;
  }

  lemma {:induction false} NextDigits(q: nat)
    requires q < 43690
    ensures q % 128 < 127 ==> (q + 1) / 16384 == q / 16384 && (q + 1) / 128 % 128 == q / 128 % 128 && (q + 1) % 128 == q % 128 + 1
    ensures q % 128 == 127 && q / 128 % 128 < 127 ==> (q + 1) / 16384 == q / 16384 && (q + 1) / 128 % 128 == q / 128 % 128 + 1
    ensures q % 128 == 127 && q / 128 % 128 == 127 ==> (q + 1) / 16384 == q / 16384 + 1 && (q + 1) / 128 % 128 == 0
  {
    Digits(q);
    var x, y, z := q / 16384, q / 128 % 128, q % 128;
    if z < 127 {
      DigitsOf(x, y, z + 1);
    } else if y < 127 {
      DigitsOf(x, y + 1, 0);
    } else {
      TopDigits(x);
    }
  }

  lemma {:induction false} TopDigits(x: nat)
    requires x < 3 && x * 16384 + 16383 < 43690
    ensures var q := x * 16384 + 16384; q / 16384 == x + 1 && q / 128 % 128 == 0
  {
    DigitsOf(x + 1, 0, 0);
  }

  /** The first byte of three numbers the group, the others its lower digits. */
  lemma {:induction false} PatternAt(q: nat)
    requires 3 * q < 131072
    ensures Pattern(3 * q) == 128 + q / 16384
    ensures 3 * q + 1 < 131072 ==> Pattern(3 * q + 1) == q / 128 % 128
    ensures 3 * q + 2 < 131072 ==> Pattern(3 * q + 2) == q % 128
  {
    assert (3 * q) / 3 == q && (3 * q + 1) / 3 == q && (3 * q + 2) / 3 == q;
    assert (3 * q) % 3 == 0 && (3 * q + 1) % 3 == 1 && (3 * q + 2) % 3 == 2;
  }

  /** Any three neighbouring bytes tell where they are. */
  lemma {:induction false} Placed(i: nat)
    requires i + 2 < 131072
    ensures Place(Pattern(i), Pattern(i + 1), Pattern(i + 2)) == i
  {
    hide Pattern;
    var q, r := i / 3, i % 3;
    assert i == 3 * q + r;
    PatternAt(q);
    Digits(q);
    if r > 0 {
      PatternAt(q + 1);
      NextDigits(q);
    }
  }

  /** So none come again. */
  lemma {:induction false} PatternNoRepeats(s: seq<byte>)
    requires |s| <= 131072 && forall i :: 0 <= i < |s| ==> s[i] == Pattern(i)
    ensures BloscLzFormat.NoRepeats(s)
  {
    hide Pattern, Place;
    forall p: nat, q: nat
      ensures !BloscLzFormat.Again(s, p, q)
    {
      if BloscLzFormat.Again(s, p, q) {
        Placed(p);
        Placed(q);
      }
    }
  }

  /** The greatest buffer, the pattern in each of its blocks. */
  function TopBuffer(): (s: seq<byte>)
    ensures |s| == MAX_BUFFERSIZE && forall i :: 0 <= i < |s| ==> s[i] == Pattern(i % 131072)
  {
    seq(MAX_BUFFERSIZE, i requires 0 <= i < MAX_BUFFERSIZE => Pattern(i % 131072))
  }

  lemma {:induction false} TopBlocksStubborn(libs: Libraries)
    ensures StubbornBlocks(libs, Params(5, BloscLz, Layout(0, NoFilter, 1, false, 131072)), TopBuffer())
  {
    hide Pattern, BlockCount, BloscLzFormat.NoRepeats, GivesUp;
    var src := TopBuffer();
    forall j: nat | j < BlockCount(|src|, 131072)
      ensures BloscLzFormat.NoRepeats(Block(src, 131072, j))
    {
      var s := Block(src, 131072, j);
      BlocksFit(|src|, 131072, j);
      forall i | 0 <= i < |s|
        ensures s[i] == Pattern(i)
      {
        assert s[i] == src[j * 131072 + i];
        assert (j * 131072 + i) % 131072 == i;
      }
      PatternNoRepeats(s);
    }
  }

  /** Compressed with BloscLZ into a destination with 16 bytes to spare, it passes the end by 13 bytes. */
  method TopBufferOverruns(libs: Libraries, dest: array<byte>) returns (r: int, overrun: bool, behind: nat)
    requires Meets(libs) && dest.Length == INT_MAX
    modifies dest
    ensures overrun && behind == 13
  {
    hide Meets, Holds, LayoutFor, SafeMode, SumsFit, RawWraps, RawBehind, StubbornBlocks, Pattern, TopBuffer;
    ghost var l, memcpyed, raw;
    TopLayout();
    TopBlocksStubborn(libs);
    r, overrun, behind, l, memcpyed, raw := Compress(libs, 5, 0, 1, TopBuffer(), dest, INT_MAX, BloscLz, 0, ForwardCompatSplit);
    forall k: nat, j: nat
      ensures RawWraps(libs, BloscLz, l, MAX_BUFFERSIZE, INT_MAX, k, j) <==> k == 16382 && j == 0
    {
      TopBufferWraps(libs, k, j);
    }
    TopBufferWraps(libs, 16382, 0);
  }
}
