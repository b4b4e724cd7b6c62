// LZ4_compress_HC: every compression level with its strategy, and the round trip through the safe decoder.

module Lz4Hc {
  import opened Bytes
  import opened Stores
  import opened Lz4Format
  import opened Lz4Encoder
  import Lz4Decoder
  import Lz4HcEncoder
  import Lz4HcMid
  import Lz4HcOptimal

  datatype Strategy = Mid | HashChain | Optimal

  /** cParams_t: the search attempts and the length from which a match is good enough. */
  datatype Params = Params(strategy: Strategy, nbSearches: nat, targetLength: nat)

  /** LZ4HC_getCLevelParams. */
  function LevelParams(cLevel: int): Params {
    var level := if cLevel < 1 then 9 else if cLevel > 12 then 12 else cLevel;
    if level <= 2 then Params(Mid, 2, 16)
    else if level <= 9 then Params(HashChain, [4, 8, 16, 32, 64, 128, 256][level - 3], 16)
    else if level == 10 then Params(Optimal, 96, 64)
    else if level == 11 then Params(Optimal, 512, 128)
    else Params(Optimal, 16384, Lz4HcOptimal.OPT_NUM)
  }

  /** LZ4_compress_HC: whatever the level, a positive result is a strict block that expands to the input. */
  method CompressHC(src: seq<byte>, dst: array<byte>, dstCapacity: nat, cLevel: int, favorDecSpeed: bool, ghost cap: nat) returns (r: nat)
    requires dstCapacity <= dst.Length && |src| <= cap
    modifies dst
    ensures r <= dstCapacity
    ensures r > 0 ==> Expand(dst[..r], []) == Some(src) && Strict(dst[..r], 0, cap)
    ensures |src| <= MAX_INPUT_SIZE && dstCapacity >= CompressBound(|src|) ==> r > 0
    ensures Uniform(src) && 13 <= |src| <= MAX_INPUT_SIZE && cLevel <= 9 && dstCapacity >= 11 + |src| / 255 ==> 0 < r <= 11 + |src| / 255
    ensures SameFrom(dst[..], old(dst[..]), dstCapacity)
  {
    hide Expand, Strict, Uniform;
    if |src| > MAX_INPUT_SIZE {
      return 0;
    }
    var params := LevelParams(cLevel);
    var limited := dstCapacity < CompressBound(|src|);
    match params.strategy {
      case Mid =>
        r := Lz4HcMid.CompressMid(src, dst, limited, dstCapacity, cap);
      case HashChain =>
        r := Lz4HcEncoder.CompressHashChain(src, dst, params.nbSearches, limited, dstCapacity, cap);
      case Optimal =>
        r := Lz4HcOptimal.CompressOptimal(src, dst, params.nbSearches, params.targetLength, limited, cLevel >= 12, favorDecSpeed, dstCapacity, cap);
    }
  }

  /** Compressing at any level and safely decompressing restores the input. */
  method RoundTrip(src: seq<byte>, packed: array<byte>, dstCapacity: nat, cLevel: int, favorDecSpeed: bool, unpacked: array<byte>, cap: nat)
    returns (r: nat, n: int)
    requires dstCapacity <= packed.Length && |src| <= cap <= unpacked.Length && packed != unpacked
    modifies packed, unpacked
    ensures r <= dstCapacity && (r > 0 ==> n == |src| && unpacked[..n] == src)
    ensures |src| <= 2113929216 && dstCapacity >= |src| + |src| / 255 + 16 ==> r > 0
  {
    hide Expand, Strict;
    r := CompressHC(src, packed, dstCapacity, cLevel, favorDecSpeed, cap);
    n := Lz4Decoder.Decompress(packed[..r], unpacked, cap);
  }
}
