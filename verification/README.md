# A verified model of the Blosc meta-compressor

Blosc cuts a buffer into blocks, filters each block (bytes or bits of the elements are regrouped), hands the
result to a fast LZ77 codec and puts the compressed blocks into a chunk, with any number of threads. This project
models those parts in Dafny and proves what a user relies on: that what was compressed comes back, whatever the
data, the level, the filter, the number of threads and the order in which they finish.

The model follows the structure of the C code. Buffers are arrays that methods write in place through cursors,
contexts and compressor states are classes with the source's fields, loops are loops, and every such method is
proved against a specification function or predicate: what a decoder makes of a stream, what a transposed block
looks like, what a checksum is.

| files | what they model |
|---|---|
| Bytes, Words | bytes, little-endian loads, the byte-at-a-time LZ copy that every faster copy is compared with |
| CopyKernels | the overlapping copies of fastcopy.c and blosclz.c |
| BloscLzFormat, BloscLzDecoder, BloscLzEncoder | the BloscLZ stream, its decoder and its encoder |
| Lz4Format, Lz4Copies, Lz4Decoder, Lz4Blocks | the LZ4 block, the safe decoder with its fast loop, shortcut and careful loop, and blocks byte by byte |
| Lz4Words, Lz4Encoder | LZ4_count on machine words and LZ4_compress_fast |
| Lz4HcPatterns, Lz4HcSearch, Lz4HcMid, Lz4HcEncoder, Lz4HcOptimal, Lz4Hc | the high compression search and the three parsers: one-entry tables, hash chains with lazy matching, optimal parsing |
| Shuffle, BitMatrix, Bitshuffle | the generic byte and bit shuffles and their inverses |
| Registers, ShuffleKernels, ShuffleVector | SSE2 and AVX2 registers, the unpack networks and the vectorized byte shuffles |
| BitshuffleMasks, BitshuffleKernels, BitshuffleVector | movemask transposes, networks and the vectorized bit shuffles |
| Chunk, ChunkUnique, ChunkWriter, ChunkReader, ChunkRoundTrip, ChunkBytes | the container: header, index of block starts, blocks, splits, random access; and the format in bytes and numbers |
| Workers, Shares, ThreadedCall | threaded compression, and threaded copying and decompression, as state machines over atomic steps; whole calls made of them |
| Barrier, Win32Cond, Win32Barrier | the counting barrier, the Windows condition variable, and the one on top of the other |
| DeflateHash, DeflateChains, Deflate | deflate's window, hash chains, match search and its fast and lazy parsers |
| Gf2, Gf2Powers, Crc32 | polynomials over GF(2), powers of x, the braided CRC-32 and its combination |
| Adler32 | Adler-32 with deferred and division-free reduction, and its combination |

Decoder specifications are functions of the rest of the stream, so an encoder's invariant can say that whatever
follows, decoding gets through what has been written with the input before the anchor produced. Places in vector
registers are named by their bits; an unpack then is a rotation of bits, and a network is proved by composing
rotations. The threaded compressor is a relation between states, and its theorems are about every run: every
interleaving of any number of workers.

The codecs that are not part of this model (Snappy, zlib's block writer and inflate, Zstandard) enter the container
through a contract: their output fits, and decompressing it gives the input back. BloscLZ, LZ4 and LZ4HC are proved
to meet that contract. Input, environment and the floating-point ratio of BloscLZ's probe are parameters or
nondeterministic choices.

Findings about the code; where a property fails, an input shows it and a condition says when it holds:

- The space tests of the container add 32-bit numbers (blosc.c:646, 709 and 1848). When a sum passes 2^31 - 1 it wraps
  (the model takes the usual two's complement result), the tests find room, and the end of the destination is passed.
  `Chunk.SpaceTest` says that a test is right exactly when its sum does not wrap. With one thread nothing is passed if
  min(destsize, nbytes + 16) + 4 + the size of a split stays below 2^31, the size of a split being the unsplit
  leftover's where that is larger, and Snappy's bound of it with Snappy (`ChunkWriter.SumsFit`); with several
  threads if destsize + blocksize + 4 typesize does (`Workers.RoomFits`). A buffer that is stored raw passes the end
  exactly when `ChunkWriter.RawWraps` holds for one of its splits. At the greatest buffer, 2147483631 bytes, with 16
  spare bytes, BloscLZ, level 5, one-byte elements and the split mode FORWARD_COMPAT, incompressible data are stored
  13 bytes beyond the destination, instead of being copied uncompressed: `ChunkWriter.TopBuffer` is such a buffer
  (`ChunkWriter.TopBufferWraps`, `ChunkWriter.TopBufferOverruns`), and with threads there is a run that does the same
  (`Workers.TopBufferRun`).
- blosclz_decompress adds up the length of a match in 32 bits (blosclz.c:693-708). A length that has wrapped can pass the
  space test (blosclz.c:728), and when it is negative the copy leaves the output. `BloscLzDecoder.CodeAgrees` says exactly
  when code and format agree: unless `BloscLzDecoder.MisledBy` holds and the stream is not refused further on. Streams of
  less than 8421509 bytes, and all streams that decode to something, are safe (`BloscLzDecoder.ShortAgrees`); a stream of
  8421509 bytes gives a wrong result, and with one byte more leaves the output (`BloscLzDecoder.Misleads`). Nothing that
  the encoder writes does so.
- Decompression casts the destination size to 32 bits (blosc.c:1490). A chunk gives back the buffer it holds exactly when
  that fits the size as the cast leaves it, which for sizes below 2^31 is the size itself (`ChunkReader.Decompress`,
  `ThreadedCall.DecompressesInThreads`). With a size of 2^31, however large the destination is, every chunk but that
  of an empty buffer is refused (`ChunkReader.DecompressHuge`).
- A forced block size is cast to 32 bits as well: 2^31 gives the smallest blocks instead of the largest
  (`ChunkWriter.ForcedWraps`).
- The start of a block is stored before any space is tested (blosc.c:816 and 1847). With one thread a destination of 16
  to 19 bytes is therefore always passed when blocks are to be compressed, and with 20 bytes never by a start; with
  several threads a start is stored behind the destination exactly when its index word does not lie inside
  (`ChunkWriter.Compress`, `Workers.PassesExactly`).
- With the split mode ALWAYS the writer's and the reader's number of splits can differ; `ChunkWriter.SplitAgreement`
  gives the exact condition and `ChunkWriter.AlwaysSplitDisagrees` an input for which they differ. Then a block that
  BloscLZ, LZ4 or LZ4HC compressed is lost, unless its first split was stored raw (`ChunkRoundTrip.SplitsRefused`,
  `ChunkRoundTrip.AlwaysSplitLoses`).
- blosc_getitem multiplies positions by the type size in 32 bits. As long as the end of the region is below 2^31 bytes it
  refuses exactly what lies outside the buffer (`ChunkReader.RefusesOutside`); beyond, a region far outside can be taken for
  one inside (`ChunkReader.OutsideAccepted`). Over all starts and counts the refusal is exact for one-byte elements only
  (`ChunkReader.RefusalExact`).
- adler32_z of a single byte after a value whose upper half is too large to be a checksum's can be wrong; `Adler32.Regular` is
  the exact condition, and `Adler32.IrregularCall` an input: the byte 0 after 0xFFFFFFF0.
- README_CHUNK_FORMAT.rst counts block starts from the end of the index; the code stores them, and reads them,
  counted from the beginning of the chunk. The model follows the code.

## Model

| member | source | states |
|---|---|---|
| LzCopies.LzCopyUnique | blosc/fastcopy.c:528-639 | The property "every byte repeats the one `dist` before" determines a match completely, so any block-wise copy that has it is the byte-at-a-time copy. |
| LzCopies.GenuineMatch | blosc/blosclz.c:512-565 | Copying a match whose source bytes equal its target bytes reproduces the next bytes of the input, overlapping or not. |
| CopyKernels.PeriodsApart | blosc/fastcopy.c:528-639 | In a repeating stretch, positions any whole number of periods apart hold the same byte; this is why sources may lag behind. |
| CopyKernels.ChunkCopy | blosc/fastcopy.c:193-278 | A forward copy in blocks that may overwrite bytes already copied is the overlapping copy, and nothing outside the target changes. |
| CopyKernels.FastCopy | blosc/fastcopy.c:497-526 | Within one buffer from at least one register before the target it equals the byte-wise copy, between regions that do not overlap it moves the source, for every length and for 8-, 16- and 32-byte registers, writing exactly the target. |
| CopyKernels.CopyMatch | blosc/fastcopy.c:528-639 | Equals the byte-wise LZ copy for every distance of at least 1 and every length, writing exactly the target. |
| CopyKernels.WildCopy | blosc/blosclz.c:669-677 | Eight bytes at a time: the LZ copy is in place and everything it overshoots is within the last eight-byte store. |
| CopyKernels.CopyMatch16 | blosc/blosclz.c:627-667 | The masked 16-byte stores, moved on by the table of periods, make the LZ copy for every distance from 1 to 16, writing nothing behind the match. |
| BloscLzFormat.MatchRoundTrip | blosc/blosclz.c:246-314 | Every match as the four MATCH macros write it (biases of 2, chain of 255, the 31/255 escape for far distances) is read back with its length and distance. |
| BloscLzFormat.WrittenMatch | blosc/blosclz.c:268-314 | What the encoder stores for a match, in numbers of its length and distance: two bytes near and short, four when the distance is 8192 or more, and a chain of bytes of 255 and a smaller one from nine bytes on. |
| BloscLzFormat.DecodesMatch | blosc/blosclz.c:679-789 | A written match extends what the decoder has produced by its LZ copy, whatever follows in the stream. |
| BloscLzFormat.DecodesNear | blosc/blosclz.c:691-763 | The two bytes 32 len + h and lo copy len + 2 bytes from 256 h + lo + 1 back. |
| BloscLzFormat.DecodesFar | blosc/blosclz.c:716-763 | The bytes 32 len + 31, 255, hi and lo copy len + 2 bytes from 256 hi + lo + 8192 back. |
| BloscLzFormat.DecodesNearLong | blosc/blosclz.c:698-763 | Behind 224 + h, k bytes of 255 and a smaller byte c stand for 255 k + c + 9 bytes. |
| BloscLzFormat.DecodesFarLong | blosc/blosclz.c:698-763 | The same with the escape for far distances behind the chain. |
| BloscLzFormat.DecodesPlain | blosc/blosclz.c:764-787 | The byte n - 1 and n bytes, up to 32, are produced as they are, also at the end of the stream. |
| BloscLzFormat.MarkerIgnored | blosc/blosclz.c:606-607 | The marker bits set in the first byte do not change what is decoded. |
| BloscLzFormat.Incompressible | blosc/blosclz.c:421-625 | Whatever an encoder does, a string in which no three bytes come again has no form in this format that is not longer. |
| BloscLzFormat.DecodesInMore | blosc/blosclz.c:679-768 | A stream that decodes to something decodes to the same with more room. |
| BloscLzDecoder.Decompress | blosc/blosclz.c:679-768 | For every input, well formed or not, the result is what the stream format defines unless a wrapped match length misleads the decoder, and nothing is written behind `maxout` unless it goes astray, which is stated exactly. |
| BloscLzDecoder.CodeAgrees | blosc/blosclz.c:691-733 | Code and format give the same if and only if no wrapped length is taken for one that fits, or the stream is refused after all; a stream that misleads has no meaning in the format. |
| BloscLzDecoder.ShortAgrees | blosc/blosclz.c:700-708 | Streams of less than 8421509 bytes never mislead, nor does any stream that decodes to something. |
| BloscLzDecoder.Misleads | blosc/blosclz.c:700-747 | A stream of 8421509 bytes whose length wraps: the code gives one byte where the format has none, and leaves the output when a byte follows. |
| BloscLzEncoder.GetRun | blosc/blosclz.c:117-142 | The run search stops one past the first different byte, or at the bound. |
| BloscLzEncoder.GetMatch | blosc/blosclz.c:146-187 | The match search by blocks stops one past the first different byte, or at the bound, for every block width. |
| BloscLzEncoder.FindMatch | blosc/blosclz.c:495-538 | A candidate is taken exactly when it is less than 73725 bytes away, agrees in four bytes, and gives the least length, six when it is farther than 8191; what is taken repeats earlier input over its biased length and keeps away from the end. |
| BloscLzEncoder.EmitMatch | blosc/blosclz.c:268-314 | Writes exactly the bytes of the match, or gives up, and never stores behind the limit. |
| BloscLzEncoder.EmitLiteral | blosc/blosclz.c:246-256 | One more literal in the pending run, or a full run closed and a new one opened; the stream so far still decodes to the input so far. |
| BloscLzEncoder.EmitMatchStep | blosc/blosclz.c:540-586 | Closes the pending run by patching its count (or dropping its placeholder), writes the match and opens the next run. |
| BloscLzEncoder.UpdateTable | blosc/blosclz.c:567-580 | Entries for the end of a match keep the table behind the cursor. |
| BloscLzEncoder.Finish | blosc/blosclz.c:600-609 | Closing the last run and setting the marker completes a stream that decodes to the whole input. |
| BloscLzEncoder.Compress | blosc/blosclz.c:421-613 | For every level, output limit and outcome of the probe: the result fits, and a positive one decodes to the input. It is 0 for a low ratio, for less than 16 bytes and for less than 66 bytes of room, but never otherwise when one byte in 32 more than the input fits; n times the same byte take at most 12 + n / 255 bytes. |
| BloscLzEncoder.RoundTrip | blosc/blosclz.c:421-789 | Decompressing what was compressed restores the input byte for byte. |
| Lz4Words.CommonBytes | internal-complibs/lz4-1.10.0/lz4.c:579-675 | LZ4_NbCommonBytes of the XOR of two words counts exactly the leading bytes that agree. |
| Lz4Words.CommonBytesBack | internal-complibs/lz4-1.10.0/lz4hc.c:165-200 | LZ4HC_NbCommonBytes32 counts exactly the trailing bytes that agree. |
| Lz4Format.LastAchieved | internal-complibs/lz4-1.10.0/lz4.c:1302-1338 | A stream of sequences closed by last literals expands to everything and respects the end-of-block restrictions. |
| Lz4Copies.FirstEight | internal-complibs/lz4-1.10.0/lz4.c:2406-2419 | inc32table and dec64table: the first eight bytes repeat with the offset, and the source is left a whole number of periods behind. |
| Lz4Copies.StartAndLag | internal-complibs/lz4-1.10.0/lz4.c:2406-2434 | Those eight bytes and a copy at the lagging distance make up the whole match. |
| Lz4Copies.SafeMatchCopy | internal-complibs/lz4-1.10.0/lz4.c:2387-2434 | Succeeds exactly when five bytes stay free behind the match; then the match is the LZ copy and nothing behind the buffer's end is written. |
| Lz4Copies.MemcpyUsingOffset | internal-complibs/lz4-1.10.0/lz4.c:495-572 | The pattern and table copies for offsets below 16 make the LZ copy, overshooting by at most 12 bytes. |
| Lz4Copies.WildCopy32 | internal-complibs/lz4-1.10.0/lz4.c:521-529 | Copies of 32 bytes at offsets of at least 16 make the LZ copy, overshooting by less than 32 bytes. |
| Lz4Decoder.ReadVariableLength | internal-complibs/lz4-1.10.0/lz4.c:1978-2014 | Reads exactly the sum of a chain; a refused chain ends beyond the limit or not at all. |
| Lz4Decoder.Shortcut | internal-complibs/lz4-1.10.0/lz4.c:2221-2261 | The two-stage shortcut advances the specified decoding, for matches it takes and for those it leaves to the general path. |
| Lz4Decoder.FastTurn | internal-complibs/lz4-1.10.0/lz4.c:2081-2208 | One turn of the fast loop neither changes the outcome nor refuses an acceptable block, wherever it leaves for the careful loop. |
| Lz4Decoder.SafeStep | internal-complibs/lz4-1.10.0/lz4.c:2213-2435 | The same of every step of the careful loop. |
| Lz4Decoder.Decompress | internal-complibs/lz4-1.10.0/lz4.c:2022-2456 | LZ4_decompress_safe on any input: a result is the block's expansion and fits; every block that respects the restrictions is accepted, and with less than 32 bytes of room, where no shortcut is taken, no other; nothing behind the capacity is written. |
| Lz4Blocks.BlockMeans | internal-complibs/lz4-1.10.0/lz4.c:2213-2435 | In numbers, for any list of sequences with counts of any length: the block with the last literals behind stands for the copies and literals named; it is acceptable only if the last match starts twelve bytes and ends five bytes before the end of the room, and that suffices with five last literals. |
| Lz4Blocks.DecompressBlock | internal-complibs/lz4-1.10.0/lz4.c:2022-2456 | LZ4_decompress_safe takes every such block that fits and whose last match keeps away from the end, returning its size with the output in place, and with less than 32 bytes of room no other. |
| Lz4Blocks.ShortBlock | internal-complibs/lz4-1.10.0/lz4.c:2213-2435 | One sequence with short counts, byte by byte: what it stands for, and that it is acceptable at its own size if and only if the offset is in reach, five literals follow and the match starts twelve bytes before the end. |
| Lz4Encoder.Probe | internal-complibs/lz4-1.10.0/lz4.c:1046-1100 | A candidate is accepted exactly when it is at distance 1 to 65535 and agrees in four bytes, even where the 16-bit table skips the distance check; its entry is replaced. |
| Lz4Encoder.FindMatch | internal-complibs/lz4-1.10.0/lz4.c:1041-1102 | The accelerating search keeps the table behind the cursor and ends with a real match twelve bytes before the end, or not at all; a match where it starts is not missed. |
| Lz4Encoder.CatchUp | internal-complibs/lz4-1.10.0/lz4.c:1104-1109 | Extending backwards keeps the match real, and stops at the anchor, at the start or where the bytes differ. |
| Lz4Encoder.Count | internal-complibs/lz4-1.10.0/lz4.c:679-703 | LZ4_count is exactly the length of the common prefix, capped at the limit. |
| Lz4Encoder.TestNext | internal-complibs/lz4-1.10.0/lz4.c:1235-1295 | Behind a match, the table is filled and probed so that entries stay behind the cursor, and a match is reported exactly when the entry hits. |
| Lz4Encoder.BudgetHolds | internal-complibs/lz4-1.10.0/lz4.c:1111-1226 | A sequence never takes more than LZ4_compressBound grants the bytes it covers. |
| Lz4Encoder.SequenceMade | internal-complibs/lz4-1.10.0/lz4.c:1111-1226 | A written sequence with a real match extends what the decoder will produce up to the match's end. |
| Lz4Encoder.CompressGeneric | internal-complibs/lz4-1.10.0/lz4.c:930-1338 | For every input, acceleration, limit and table type: a positive result expands to the input and respects the restrictions; failure only with a limit. |
| Lz4Encoder.CompressFast | internal-complibs/lz4-1.10.0/lz4.c:1345-1403 | Success is certain when the output has LZ4_compressBound bytes; n times the same byte take at most 11 + n / 255 bytes, for every acceleration. |
| Lz4Encoder.RoundTrip | internal-complibs/lz4-1.10.0/lz4.c:1345-2456 | A positive result of the compressor is accepted by the safe decoder at any capacity that holds the input, at exactly its size, and gives it back. |
| Lz4HcPatterns.CountBack | internal-complibs/lz4-1.10.0/lz4hc.c:202-225 | Exactly the number of equal bytes before two positions, within the limit. |
| Lz4HcPatterns.CountPattern | internal-complibs/lz4-1.10.0/lz4hc.c:818-848 | Exactly how far a four-byte pattern repeats forwards. |
| Lz4HcPatterns.ReverseCountPattern | internal-complibs/lz4-1.10.0/lz4hc.c:850-868 | Exactly how far it repeats backwards. |
| Lz4HcSearch.PrefixNotProtected | internal-complibs/lz4-1.10.0/lz4hc.c:870-878 | In prefix mode the 32-bit dictionary guard never refuses a candidate. |
| Lz4HcSearch.TryCandidate | internal-complibs/lz4-1.10.0/lz4hc.c:926-943 | The longest match at the candidate's distance around the position is found, by two-byte filter, comparison and extension both ways, and taken exactly when it is longer than what there is; it is real over its whole length. |
| Lz4HcSearch.AnalysePattern | internal-complibs/lz4-1.10.0/lz4hc.c:987-1059 | A length concluded from repeated bytes, without comparing them, belongs to a real match; jumps stay inside the window. |
| Lz4HcSearch.Context.Insert | internal-complibs/lz4-1.10.0/lz4hc.c:778-802 | Entering positions keeps all heads behind the next position and all chain steps within 16 bits; each head is the latest of its hash. |
| Lz4HcSearch.Context.InsertAndGetWiderMatch | internal-complibs/lz4-1.10.0/lz4hc.c:884-1104 | Only real matches inside the limits and longer than asked for are returned, with chain swapping and pattern analysis, and none at the distance of the head of the chain is longer. |
| Lz4HcMid.Tables.Search | internal-complibs/lz4-1.10.0/lz4hc.c:572-641 | Whatever the one-entry tables hold behind the cursor, a reported match is real and starts at the cursor or the byte after it; what the table of long hashes offers is not missed. |
| Lz4HcMid.Tables.AddEnd | internal-complibs/lz4-1.10.0/lz4hc.c:692-704 | Filling the tables at the end of a match reads inside the input and keeps every entry behind the cursor. |
| Lz4HcMid.CompressMid | internal-complibs/lz4-1.10.0/lz4hc.c:522-773 | The fastest strategy: a positive result expands to the input and respects the restrictions, although moved matches are entered under stale indices; n times the same byte take at most 11 + n / 255 bytes. |
| Lz4HcEncoder.CorrectedStands | internal-complibs/lz4-1.10.0/lz4hc.c:1198-1210 | Correcting the second of two overlapping matches leaves both real and at least four bytes long. |
| Lz4HcEncoder.KeptAsideStands | internal-complibs/lz4-1.10.0/lz4hc.c:1242-1265 | Dropping or keeping what is left of the second match when a third replaces it re-establishes the invariant of _Search2. |
| Lz4HcEncoder.MovedUpStands | internal-complibs/lz4-1.10.0/lz4hc.c:1272-1305 | With three ascending matches the shortened first is real, and the others move up into the invariant of _Search3. |
| Lz4HcEncoder.EncodeSequence | internal-complibs/lz4-1.10.0/lz4hc.c:268-354 | A real match of at least four bytes behind the anchor becomes one more sequence, of the size its counts need; failure only with a limit that this size passes. |
| Lz4HcEncoder.FindBest | internal-complibs/lz4-1.10.0/lz4hc.c:1106-1118 | A match at the position is found, and none at the distance of the head of its chain is longer. |
| Lz4HcEncoder.Step2 | internal-complibs/lz4-1.10.0/lz4hc.c:1165-1196 | _Search2 keeps every candidate real and the tables behind the next search. |
| Lz4HcEncoder.Step3 | internal-complibs/lz4-1.10.0/lz4hc.c:1198-1305 | The same of _Search3, whatever is trimmed, swapped or written. |
| Lz4HcEncoder.CompressHashChain | internal-complibs/lz4-1.10.0/lz4hc.c:1121-1362 | The lazy parser's sequences and last literals expand to the whole input; n times the same byte take at most 11 + n / 255 bytes. |
| Lz4HcOptimal.FindLonger | internal-complibs/lz4-1.10.0/lz4hc.c:1802-1820 | A match that starts at the cursor, real even when cut to 18 bytes for decompression speed. |
| Lz4HcOptimal.PricesAreSizes | internal-complibs/lz4-1.10.0/lz4hc.c:1778-1800 | The prices that are compared are the sizes in bytes of the sequences and literals they stand for. |
| Lz4HcOptimal.MatchEnds | internal-complibs/lz4-1.10.0/lz4hc.c:1971-2005 | Pricing the ends of a match leaves no gap: every position up to the last one is reached by a literal or a real match. |
| Lz4HcOptimal.Choose | internal-complibs/lz4-1.10.0/lz4hc.c:1920-2020 | Whether the search ends at the last position or with an immediate encoding, the chosen step is real and every position before it is reached. |
| Lz4HcOptimal.Traverse | internal-complibs/lz4-1.10.0/lz4hc.c:2022-2040 | The reverse traversal stops at position 0 and rewrites the steps into a chain that tiles the stretch exactly, ending with the chosen match. |
| Lz4HcOptimal.EncodeChain | internal-complibs/lz4-1.10.0/lz4hc.c:2042-2056 | Emitting the chain passes exactly the chosen stretch, with every match at its place. |
| Lz4HcOptimal.CompressOptimal | internal-complibs/lz4-1.10.0/lz4hc.c:1823-2117 | The optimal parser's output expands to the input; no access leaves opt[], which has 4096 + 3 entries. |
| Lz4Hc.CompressHC | internal-complibs/lz4-1.10.0/lz4hc.c:1373-1535 | Every level, whatever its strategy, yields a strict block of the input, and always succeeds with LZ4_compressBound bytes; up to level 9 n times the same byte take at most 11 + n / 255 bytes. |
| Lz4Hc.RoundTrip | internal-complibs/lz4-1.10.0/lz4hc.c:1519-1535 | Compressing at any level and decompressing safely restores the input. |
| Grids.TransposedTwice | blosc/shuffle-generic.h:32-81 | The transpose of a transpose is the grid. |
| Shuffle.ShuffleGeneric | blosc/shuffle-generic.h:32-52 | The shuffled block: elements and their bytes transposed, leftover bytes copied. |
| Shuffle.UnshuffleGeneric | blosc/shuffle-generic.h:61-81 | The inverse arrangement. |
| Shuffle.UnshuffleShuffle | blosc/shuffle-generic.h:32-81 | Unshuffling undoes shuffling for every type size and block size. |
| Registers.UnpackBits | blosc/shuffle-sse2.c:171-214 | An unpack instruction, of any unit and either half, as a rotation of the bits of a place. |
| Networks.PairedBits | blosc/shuffle-sse2.c:171-214 | A loop of unpacks exchanges one bit of the register number with one of the place. |
| ShuffleKernels.Lanes16 | blosc/shuffle-sse2.c:171-214 | The four loops for 16-byte elements transpose each lane. |
| ShuffleKernels.Lanes8 | blosc/shuffle-sse2.c:129-168 | The network for 8-byte elements transposes each lane. |
| ShuffleKernels.Lanes4 | blosc/shuffle-sse2.c:90-126 | The network for 4-byte elements transposes each lane. |
| ShuffleKernels.Lanes2 | blosc/shuffle-sse2.c:52-87 | The network for 2-byte elements transposes each lane. |
| ShuffleKernels.Widen16 | blosc/shuffle-avx2.c:212-268 | The lane permutes complete the transpose over 32 elements. |
| ShuffleKernels.Deal2 | blosc/shuffle-avx2.c:76-115 | The AVX2 network for 2-byte elements is the transpose. |
| ShuffleKernels.Unturn16 | blosc/shuffle-sse2.c:387-449 | The network of unshuffle16, with its order of stores, is the inverse transpose. |
| ShuffleKernels.UnturnWide8 | blosc/shuffle-avx2.c:415-466 | The network of unshuffle8 with its lane exchanges is the inverse transpose. |
| ShuffleVector.ShuffleTiled | blosc/shuffle-sse2.c:217-270 | Tiles of 16 bytes, of which the first two overlap when the type size is no multiple of 16, cover every byte of every element. |
| ShuffleVector.ShuffleSimd | blosc/shuffle-sse2.c:525-580 | SSE2 and AVX2 shuffles meet the generic specification on every block and type size. |
| ShuffleVector.UnshuffleSimd | blosc/shuffle-avx2.c:712-770 | So do the unshuffles. |
| ShuffleVector.ShuffledUnique | blosc/shuffle-avx2.c:652-710 | The shuffled block is determined, so all implementations write the same bytes. |
| ShuffleVector.UnshuffledUnique | blosc/shuffle-avx2.c:712-770 | So is the unshuffled one. |
| BitMatrix.GathersDigits | blosc/bitshuffle-generic.h:42-49 | Byte k of what TRANS_BIT_8X8 makes of eight bytes has as its bits bit k of each of them, in order. |
| BitMatrix.GatherTwice | blosc/bitshuffle-generic.h:42-49 | Gathering digits twice gives the bytes back. |
| Bitshuffle.TransBitElem | blosc/bitshuffle-generic.c:123-139 | The three scalar stages compute the bit shuffle, for every element size; a size that is no multiple of eight is refused. |
| Bitshuffle.BitLands | blosc/bitshuffle-generic.c:123-139 | Bit b of byte j of element e becomes bit e % 8 of place e / 8 in row 8 j + b. |
| Bitshuffle.UntransBitElem | blosc/bitshuffle-generic.c:206-220 | The two inverse stages compute the bit unshuffle. |
| Bitshuffle.UnshuffleBitshuffle | blosc/bitshuffle-generic.c:123-220 | Unshuffling what was shuffled restores every byte. |
| Bitshuffle.BitshuffleBlock | blosc/shuffle.c:393-416 | The filter: bits shuffled when the number of elements is a multiple of eight, otherwise a copy; leftover bytes copied. |
| Bitshuffle.BitunshuffleBlock | blosc/shuffle.c:420-443 | Whatever was bitshuffled comes back. |
| BitshuffleMasks.MaskGathers | blosc/bitshuffle-sse2.c:290-295 | Each stored byte of a movemask gathers the top bits of eight bytes of the register. |
| BitshuffleMasks.ShiftsWords | blosc/bitshuffle-sse2.c:290-295 | The shift by one in 16-bit words doubles the number that two neighbouring bytes make, modulo 2^16. |
| BitshuffleMasks.RisenGathers | blosc/bitshuffle-sse2.c:289-297 | After k shifts of 16-bit words the mask gathers bit 7 - k of the original bytes, whatever crossed between neighbouring bytes. |
| BitshuffleKernels.Elements64 | blosc/bitshuffle-sse2.c:135-195 | The network for 64-bit elements transposes bytes within elements. |
| BitshuffleKernels.TurnRows | blosc/bitshuffle-sse2.c:349-383 | The three unpack stages turn eight rows into columns, in registers of one lane or two. |
| BitshuffleKernels.Quarter | blosc/bitshuffle-avx2.c:172-183 | Quad-word unpacks and lane permutes join the columns of four times eight rows. |
| BitshuffleVector.TransElements | blosc/bitshuffle-sse2.c:58-200 | Sixteen elements at a time with the scalar remainder: bytes within elements of 2, 4 or 8 bytes are transposed. |
| BitshuffleVector.PiecesTransposed | blosc/bitshuffle-sse2.c:244-262 | Pieces across elements, bytes within pieces, rows into place: together the transpose of bytes within elements. |
| BitshuffleVector.TransByteElem | blosc/bitshuffle-sse2.c:215-271 | Every branch of the hierarchical transpose equals the scalar stage, for every element size. |
| BitshuffleVector.TransBitByte | blosc/bitshuffle-sse2.c:274-301 | The movemask transposes, of 16 or 32 bytes at a time, equal the scalar stage. |
| BitshuffleVector.TransByteBitrowSse2 | blosc/bitshuffle-sse2.c:322-425 | The vectorized transpose of bit rows, with its column remainder, equals the scalar one. |
| BitshuffleVector.TransByteBitrowAvx2 | blosc/bitshuffle-avx2.c:105-206 | So does the one over squares of 32 rows and columns. |
| BitshuffleVector.ShuffleBitEightElemSse2 | blosc/bitshuffle-sse2.c:428-462 | The vectorized eight-element bit shuffle equals the scalar one. |
| BitshuffleVector.ShuffleBitEightElemAvx2 | blosc/bitshuffle-avx2.c:209-241 | So does the one with 32-byte registers. |
| BitshuffleVector.TransBitElemSimd | blosc/bitshuffle-sse2.c:304-319 | The whole vectorized pipeline computes the same bit permutation as the scalar one (AVX2 likewise). |
| BitshuffleVector.UntransBitElemSimd | blosc/bitshuffle-avx2.c:244-259 | The whole vectorized inverse computes the scalar inverse (SSE2 likewise). |
| BitshuffleVector.BitShuffledUnique | blosc/shuffle.c:301-337 | The bitshuffled bytes are determined, so every host implementation writes the same ones. |
| BitshuffleVector.BitUnshuffledUnique | blosc/shuffle.c:301-337 | So are the unshuffled ones. |
| Chunk.FlagsRead | blosc/blosc.c:1148-1247 | Format, filter, split flag and copy flag can all be read back from the flags byte. |
| Chunk.Advance | blosc/blosc.c:803-867 | Blocks follow each other without gap and end with the buffer, the last one shorter if need be. |
| Chunk.SpaceTest | blosc/blosc.c:646-651 | A space test agrees with the exact comparison if and only if its 32-bit sum does not wrap. |
| ChunkUnique.HeldOnce | blosc/blosc.c:725-800 | What is encoded at a place of a chunk is determined: splits, filters and codecs admit one block only. |
| ChunkBytes.FilterApart | blosc/blosc.c:605-625 | What the flags mean for a block: with bit 0 and elements of several bytes, byte j of element i goes to place j q + i, q being the number of elements; otherwise with bit 2 and a whole number of groups of eight elements, bit b of byte j of element e goes to bit e % 8 of byte e / 8 of row 8 j + b; else, and behind the last element, nothing moves. |
| ChunkBytes.HoldsExactly | README_CHUNK_FORMAT.rst:1-97 | A chunk holds a buffer in some layout if and only if its bytes say so, in plain numbers: header bytes and flags, little-endian sizes, index, splits behind their sizes, elements of up to 16 bytes and 128 of them as the limits for splitting, and the filters by place. |
| ChunkWriter.ComputeBlockSize | blosc/blosc.c:962-1060 | The block size is positive, at most the buffer's, within the limits, and whole elements when larger than one. |
| ChunkWriter.UnsplitBlocks | blosc/blosc.c:962-1060 | In numbers: blocks of 8 KB to 256 KB by level when they are not split, and twice that, at level 9 four times, for the codecs with high ratios. |
| ChunkWriter.SplitBlocks | blosc/blosc.c:962-1060 | In numbers: when BloscLZ splits, as much for every byte of an element, but from 64 KB to 1 MB. |
| ChunkWriter.ForcedWraps | blosc/blosc.c:962-985 | A forced block size of 2^31 gives blocks of 128 bytes, one of 2^31 - 1 the largest blocks. |
| ChunkWriter.SplitAgreement | blosc/blosc.c:627-634 | The writer's and the reader's number of splits agree if and only if the block is not split, is the leftover, has one-byte elements, or passes the reader's size test. |
| ChunkWriter.AlwaysSplitDisagrees | blosc/blosc.c:929-959 | A buffer for which the split mode ALWAYS makes them disagree, with any codec: 2176 bytes of 17-byte elements give 17 splits of 128 bytes against one. |
| ChunkWriter.CompressSplit | blosc/blosc.c:636-700 | The codec call: BloscLZ, LZ4 and LZ4HC meet the contract that the other codecs are assumed to meet; BloscLZ gives up on bytes in which no three come again, but neither LZ4 and LZ4HC nor, when its probe lets it try, BloscLZ give up on one byte over and over. |
| ChunkWriter.PutSplit | blosc/blosc.c:636-716 | One split is stored whole, compressed or raw, or refused for lack of room; with LZ4 and LZ4HC one byte over and over is stored compressed; the codec is given room behind the destination if and only if the sum that asks for it wraps, and then a raw split ends that far behind. |
| ChunkWriter.CompressBlock | blosc/blosc.c:591-722 | A stored block is encoded in as many splits as the writer makes, inside the output limit; the limit is passed only when a sum wraps, and when all splits are raw exactly when the sum of one that is reached does. |
| ChunkWriter.Context.Initialize | blosc/blosc.c:1062-1145 | Succeeds exactly for admissible parameters, with type size, destination size and block size normalized. |
| ChunkWriter.Context.WriteHeader | blosc/blosc.c:1148-1247 | The header fields, and the output counter behind the index or, for a copy, behind the header. |
| ChunkWriter.Context.CompressBlocks | blosc/blosc.c:803-867 | The serial block loop leaves every block encoded at its recorded start, gives up, or passes the end of the destination: always below 20 bytes, otherwise never when the sums fit, and on raw blocks exactly when one wraps. |
| ChunkWriter.Context.CompressContext | blosc/blosc.c:1250-1279 | Compression or the memcpy fallback: unless the end is passed, a positive result is a chunk that holds the buffer, nothing behind the destination changes, and with 16 bytes to spare the result is always positive. |
| ChunkWriter.Compress | blosc/blosc.c:1282-1308 | The same for a whole call, for every level, filter, type size, codec, block size and destination size, with the condition on the sizes that a caller can test. |
| ChunkBytes.CompressImage | blosc/blosc.c:1064-1308 | A call that succeeds returns such bytes, with the number of the codec, the filter bit, the type size and, at level 0 or below 128 bytes, the copy flag that belong to its parameters; sizes out of range give 0 and other bad parameters -10. |
| ChunkWriter.TopBufferWraps | blosc/blosc.c:646-651 | Of the greatest buffer, stored raw in 128 KB blocks with 16 bytes to spare, exactly block 16382 makes a sum wrap, and its copy would end 13 bytes behind the destination. |
| ChunkWriter.TopBufferOverruns | blosc/blosc.c:1282-1308 | There is such a buffer, and the call with it passes the end by 13 bytes. |
| ChunkReader.HeaderRead | blosc/blosc.c:1435-1480 | The header of a chunk that holds a buffer reads back as it was written. |
| ChunkReader.ReadSplits | blosc/blosc.c:748-800 | Encoded splits are read back to their data, compressed or raw; an offset or a size outside the chunk gives -1, and a first split of BloscLZ or LZ4 that decodes to another length -2; only a long BloscLZ stream leads astray. |
| ChunkReader.DecompressBlock | blosc/blosc.c:725-800 | Whatever block is encoded at the offset comes back, unfiltered; what that means byte by byte says ChunkBytes.FilterApart. |
| ChunkReader.ReadBlock | blosc/blosc.c:725-800 | Reading a block gives the block of every buffer of which the chunk holds it, and otherwise some bytes of at most its size, an error, or goes astray in a long BloscLZ stream. |
| ChunkReader.Passes | blosc/blosc.c:1460-1509 | A held buffer passes the tests if and only if it fits the destination size cast to 32 bits; otherwise the result is -1. |
| ChunkReader.Decompress | blosc/blosc.c:1435-1518 | A chunk that holds a buffer gives exactly that buffer if it fits the destination size cast to 32 bits, and -1 otherwise; any chunk of another version, with the reserved flag, without type or block size or too large gives -1, and a result above 0 is at most the size in the header; nothing is stored behind the destination unless BloscLZ goes astray. |
| ChunkBytes.DecompressImage | blosc/blosc.c:1435-1518 | From such bytes the buffer comes back exactly when it fits the destination size cast to 32 bits. |
| ChunkReader.DecompressHuge | blosc/blosc.c:1489-1492 | With a destination size of 2^31 the result is -1 for every non-empty buffer. |
| ChunkReader.GetItem | blosc/blosc.c:1574-1703 | Items of a held buffer are its bytes, across block borders, in copied chunks too; what the tests refuse gives -1, and what comes out after wrapped products is the bytes at the wrapped positions. |
| ChunkReader.RefusesOutside | blosc/blosc.c:1644-1653 | While the region ends below 2^31 bytes, exactly the regions outside the buffer are refused. |
| ChunkReader.RefusalExact | blosc/blosc.c:1644-1653 | The refusal is exact over all starts and counts if and only if elements have one byte. |
| ChunkReader.OutsideAccepted | blosc/blosc.c:1644-1653 | Ten items of four bytes at 2^30 are accepted for a buffer of 400 bytes. |
| ChunkRoundTrip.RoundTrip | blosc/blosc.c:1250-1518 | Compressing and decompressing restores the buffer, and 0 < r <= nbytes + 16 whenever destsize >= nbytes + 16, unless the end of the destination is passed, which it is not in 20 bytes or more when the sums fit. |
| ChunkRoundTrip.ItemsRoundTrip | blosc/blosc.c:1574-1703 | Items read from a compressed buffer are the same slice of the original; regions outside it that the tests refuse give -1. |
| ChunkRoundTrip.HoldsOne | blosc/blosc.c:1148-1247 | A chunk holds at most one buffer, in one layout. |
| ChunkRoundTrip.SplitsRefused | blosc/blosc.c:725-800 | A block that the writer splits and the reader does not, compressed with BloscLZ, LZ4 or LZ4HC, fails to decompress unless its first split was stored raw. |
| ChunkRoundTrip.AlwaysSplitLoses | blosc/blosc.c:929-959 | So 2176 bytes of 17-byte elements, compressed with one of them in the split mode ALWAYS, are lost. |
| Workers.WorkerCompress | blosc/blosc.c:1796-1812 | What a worker compresses privately is an encoded block that fits its buffer, or nothing; there no sum wraps. |
| Workers.StepInv | blosc/blosc.c:1769-1868 | Every atomic step of every worker keeps the invariant: one holder or log entry per claimed block, regions tiling the output, copied prefixes in place. |
| Workers.RunInv | blosc/blosc.c:1706-1887 | So it holds after every run, for any interleaving of any number of workers. |
| Workers.PlacesApart | blosc/blosc.c:1843-1861 | The regions and blocks of two entries never coincide or overlap. |
| Workers.PassesExactly | blosc/blosc.c:1843-1861 | In the critical section the end of the destination is passed if and only if the index word lies behind it or the 32-bit sum of output counter and block wraps; otherwise the block is refused or placed. |
| Workers.NeverPasses | blosc/blosc.c:1769-1868 | No run does so when destsize + blocksize + 4 typesize is below 2^31 and the destination takes the index, or the starts of as many blocks as there are workers. |
| Workers.TopBufferPasses | blosc/blosc.c:1843-1861 | In whatever run, after 16382 raw blocks of the greatest buffer the next one passes the end, by 13 bytes. |
| Workers.TopBufferRun | blosc/blosc.c:1769-1868 | From every initial state of that job there is a run that does. |
| Workers.RaceIsHarmless | blosc/blosc.c:1769-1868 | If all workers are done and none gave up, the end of the destination has not been passed, every block was placed exactly once, the places tile [16 + 4 n, output size) and every block decodes from its recorded start. |
| Workers.Progresses | blosc/blosc.c:1769-1868 | Unless the end of the destination has been passed, some worker has a step to take until all are done. |
| Workers.RunKeepsHeader | blosc/blosc.c:1706-1887 | No step of any worker touches the header or anything behind the destination. |
| Workers.ThreadedChunkHolds | blosc/blosc.c:871-899 | With the size stored at the end the result is a chunk that holds the buffer, in whatever order blocks landed. |
| Shares.OneWorkerEach | blosc/blosc.c:1777-1791 | The static division of blocks gives every block one worker and only one. |
| Shares.StepInv | blosc/blosc.c:1793-1876 | Every step of every worker keeps the blocks it is through with as they were read, stored in their places, and its counter at their bytes. |
| Shares.SharesDone | blosc/blosc.c:1777-1880 | When all workers are done, either nobody gave up, every block holds what reading it gave and the counter has grown by all their bytes, or the code is that of a block that could not be read; nothing else has changed. |
| Shares.DataDone | blosc/blosc.c:1793-1880 | When reading can only lead to the blocks of some data, no run goes astray or gives up, and in the end the data are in place and counted. |
| ThreadedCall.CallHolds | blosc/blosc.c:1250-1279 | A threaded call, however its workers interleave, never passes the end of the destination when the sizes fit; unless it does, with the copy after giving up, it gives a chunk that holds the buffer, 0 only without 16 bytes to spare, negative only for a codec error, and changes nothing behind the destination. |
| ThreadedCall.CallStarts | blosc/blosc.c:1064-1145 | Whatever parameters a call admits give the workers a job of sizes they can handle and a state in which they begin. |
| ThreadedCall.WorkerDecompress | blosc/blosc.c:1822-1828 | What a worker gets for a block of the chunk is what the machine lets it get. |
| ThreadedCall.HeldDetermined | blosc/blosc.c:1822-1828 | Of a chunk that holds a buffer every block can only be read, or copied, as the buffer's. |
| ThreadedCall.DecompressesInThreads | blosc/blosc.c:1435-1518 | Threaded decompression of a chunk gives the buffer it holds and its size, in any interleaving, if it fits the destination size cast to 32 bits, and -1 otherwise; nothing is stored behind the buffer. |
| ThreadedCall.FailsInThreads | blosc/blosc.c:871-899 | Of any chunk, a finished run has read and stored all blocks, or some block could not be read and the result is -1. |
| Barrier.StepInv | blosc/blosc.c:163-202 | Every step keeps everybody at the same barrier or on the way out of the one before. |
| Barrier.BarrierHolds | blosc/blosc.c:163-202 | Over any number of alternating uses nobody has passed a barrier that somebody has not reached, not all are asleep, and the counter is back at 0 when all are out. |
| Barrier.NeverStuck | blosc/blosc.c:163-202 | In every state of every run some participant can take a step. |
| Barrier.EverybodyPasses | blosc/blosc.c:163-202 | Whatever the order, after k steps of n participants everybody has passed at least (k / n - 3) / 2 barriers: nobody is left behind for good. |
| Barrier.SpuriousBreaks | blosc/blosc.c:185-199 | Since the waits are not in loops, one spurious wakeup of anybody but the last to arrive lets it through while somebody has not arrived, for any number of participants. |
| Barrier.FirstCanBreak | blosc/blosc.c:171-180 | That can be whoever arrives first at the very first barrier. |
| Win32Cond.StepInv | blosc/win32/pthread.c:110-218 | Every step of waiters and broadcaster keeps waiters, semaphore tokens, flag and event consistent. |
| Win32Cond.BroadcastReleases | blosc/win32/pthread.c:191-218 | A broadcast has a token for every thread then asleep, and these are all that wait; with nobody asleep it does nothing. |
| Win32Cond.BroadcastReturns | blosc/win32/pthread.c:191-218 | When a broadcast returns, the semaphore and waiter count are 0 and exactly those present at its start have been released. |
| Win32Cond.NoSpuriousWakeups | blosc/win32/pthread.c:110-161 | A sleeper takes a token only during a broadcast that began after it fell asleep. |
| Win32Cond.BroadcastProgresses | blosc/win32/pthread.c:191-218 | A broadcast that has begun always finds the event set or somebody with a step to take. |
| Win32Cond.CanStep | blosc/win32/pthread.c:110-218 | A thread is held up exactly by the mutex that another holds, by the lack of a token when asleep, or by the event not being set when broadcasting. |
| Win32Cond.NeverStuck | blosc/win32/pthread.c:110-218 | In every state of every run some thread can take a step, unless all are asleep. |
| Win32Barrier.Simulates | blosc/win32/pthread.c:110-218 | Every step of the barrier over the Windows condition variable is a step of the abstract barrier, whose sleepers wake at a broadcast and at no other time, or none at all. |
| Win32Barrier.BarrierHolds | blosc/blosc.c:163-202 | So on Windows the barrier keeps its promise with nothing assumed about wakeups. |
| Win32Barrier.NeverStuck | blosc/win32/pthread.c:110-218 | With the barrier on top some thread can always take a step. |
| DeflateHash.Rolls | internal-complibs/zlib-1.3.1/deflate.c:135-141 | UPDATE_HASH on a ready hash gives the hash of the last three bytes, older bytes being shifted out. |
| DeflateHash.ThirdByte | internal-complibs/zlib-1.3.1/deflate.c:1376-1379 | With a hash of at least eight bits, two bytes and the hash determine the third. |
| DeflateChains.Inserted | internal-complibs/zlib-1.3.1/deflate.c:160-163 | INSERT_STRING keeps the invariant: chains name earlier strings of the same hash, in descending order, and leave none out. |
| DeflateChains.Slid | internal-complibs/zlib-1.3.1/deflate.c:187-209 | Sliding window, heads and links together keeps it. |
| DeflateChains.ThirdByteEqual | internal-complibs/zlib-1.3.1/deflate.c:1446-1453 | Why longest_match need not compare the third byte. |
| DeflateChains.WalksAll | internal-complibs/zlib-1.3.1/deflate.c:1486-1487 | When the chain length is not used up, a walk along a chain has come by every inserted string of the hash in reach. |
| Deflate.State.InsertString | internal-complibs/zlib-1.3.1/deflate.c:160-163 | Returns the latest string of the same hash, or none, and keeps tables and running hash ready. |
| Deflate.State.Compare | internal-complibs/zlib-1.3.1/deflate.c:1455-1469 | The eight-fold unrolled comparison finds exactly where two strings differ, up to 258 bytes. |
| Deflate.State.LongestMatch | internal-complibs/zlib-1.3.1/deflate.c:1348-1489 | The result is at least the match with the head of the chain and, unless it is good enough or the whole lookahead, with every string the chain leads to within the chain length and MAX_DIST; the match reported has equal window bytes over its whole length. |
| Deflate.State.SearchThorough | internal-complibs/zlib-1.3.1/deflate.c:1348-1489 | So no inserted string in reach agrees in more bytes, unless the result is good enough or as many strings of the hash as the level allows were looked at in vain. |
| Deflate.State.Slide | internal-complibs/zlib-1.3.1/deflate.c:274-287 | The move of the upper window half keeps everything at its place in the stream. |
| Deflate.State.ReadBuf | internal-complibs/zlib-1.3.1/deflate.c:218-239 | Exactly the next input bytes are appended to the window. |
| Deflate.State.FillWindow | internal-complibs/zlib-1.3.1/deflate.c:251-368 | Keeps the invariant, makes room, and leaves little lookahead only when the input is used up. |
| Deflate.State.StepFast | internal-complibs/zlib-1.3.1/deflate.c:1829-1891 | deflate_fast tallies the match that a thorough search found whenever it has three bytes, otherwise a literal; it is genuine and the log still stands for the input before strstart. |
| Deflate.State.StepSlow | internal-complibs/zlib-1.3.1/deflate.c:1929-2014 | deflate_slow searches thoroughly unless the match it holds back is long enough, tallies that match exactly when nothing longer was found (short ones being dropped when filtered, of three bytes when more than 4096 away), and otherwise holds back what it found; the log stays right. |
| Deflate.State.DeflateFast | internal-complibs/zlib-1.3.1/deflate.c:1811-1902 | Whenever it returns, all input is accounted for; unless it needs more, the log stands for all of it; when the output is never full, a flush or finish completes and otherwise less than 262 bytes are left to look at. |
| Deflate.State.DeflateSlow | internal-complibs/zlib-1.3.1/deflate.c:1910-2030 | The same of the lazy parser. |
| Deflate.State.Forget | internal-complibs/zlib-1.3.1/deflate.c:1211-1218 | After a full flush the cleared chains and restarted window keep the invariant, and the log is marked: nothing tallied later refers to what came before. |
| Deflate.Run | internal-complibs/zlib-1.3.1/deflate.c:946-1255 | Over any sequence of calls, inputs and flushes the tokens expand to a prefix of the input, to all of it when nothing more is needed, with matches of 3 to 258 bytes at distances up to MAX_DIST; the tokens since the last full flush expand by themselves to the input since; when the output is never full, flushes complete, finishing ends the stream, and otherwise at most 262 bytes are kept back; the stream ends with the first Finish that completes, and later calls with input or another flush are refused. |
| Gf2.MulCommutes | internal-complibs/zlib-1.3.1/crc32.c:155-170 | Multiplication modulo the CRC polynomial is commutative. |
| Gf2.MulAssociates | internal-complibs/zlib-1.3.1/crc32.c:155-170 | And associative. |
| Gf2Powers.XPowNonZero | internal-complibs/zlib-1.3.1/crc32.c:176-187 | No power of x is zero. |
| Gf2Powers.TableSquares | internal-complibs/zlib-1.3.1/crc32.h:9439-9446 | Every literal of x2n_table is the square of the one before, and the first that of the last: x^(2^32) is x. |
| Gf2Powers.TableMeans | internal-complibs/zlib-1.3.1/crc32.h:9439-9446 | Entry k & 31 is x^(2^k) for every k. |
| Gf2Powers.MultModP | internal-complibs/zlib-1.3.1/crc32.c:155-170 | The loop ends for every non-zero operand and computes the product. |
| Gf2Powers.X2NModP | internal-complibs/zlib-1.3.1/crc32.c:176-187 | x^(n * 2^k), never zero. |
| CrcRegister.FeedByTable | internal-complibs/zlib-1.3.1/crc32.c:676-681 | The table step is multiplication of the register by x^8 after adding the byte. |
| CrcRegister.CrcConcat | internal-complibs/zlib-1.3.1/crc32.c:1021-1026 | The checksum of two parts is the first's times x^(8 n) plus the second's. |
| CrcRegister.Residue | internal-complibs/zlib-1.3.1/crc32.c:704-1009 | Any string followed by its checksum, least significant byte first, has the checksum 0x2144df1c, whatever the starting value. |
| CrcRegister.CheckValue | internal-complibs/zlib-1.3.1/crc32.c:694-1010 | The checksum of "123456789" is 0xcbf43926. |
| CrcBraid.BlockRead | internal-complibs/zlib-1.3.1/crc32.c:775-858 | Reading a block braid by braid or word by word gives the register of reading it byte by byte. |
| CrcBraid.WordTerms | internal-complibs/zlib-1.3.1/crc32.c:528-540 | A word's table contributions are its register, moved past the bytes of the other braids. |
| Crc32.MakeCrcTable | internal-complibs/zlib-1.3.1/crc32.c:314-323 | Every entry is the byte times x^8. |
| Crc32.MakeX2NTable | internal-complibs/zlib-1.3.1/crc32.c:325-329 | The squaring loop gives the literal table, entry for entry. |
| Crc32.Braid | internal-complibs/zlib-1.3.1/crc32.c:528-540 | The braid tables hold each byte's contribution to its braid's next word, for any number of braids and either word size. |
| Crc32.CrcWord | internal-complibs/zlib-1.3.1/crc32.c:676-681 | The bytes of a word through the table are the register after them. |
| Crc32.Crc32Z | internal-complibs/zlib-1.3.1/crc32.c:694-1010 | The braided CRC is the byte-at-a-time CRC for every buffer, length, alignment, starting value and number of braids. |
| Crc32.Recheck | internal-complibs/zlib-1.3.1/crc32.c:694-1010 | crc32_z over a buffer and its own result returns that residue, for every buffer and starting value. |
| Crc32.Crc32Combine64 | internal-complibs/zlib-1.3.1/crc32.c:1021-1026 | The combination multiplies by x^(8 len2), for every length. |
| Crc32.CombineParts | internal-complibs/zlib-1.3.1/crc32.c:1021-1026 | Combining the checksums of two buffers gives that of their concatenation. |
| AdlerSums.Deferred | internal-complibs/zlib-1.3.1/adler32.c:61-125 | Reducing late changes nothing. |
| AdlerSums.NmaxIsLargest | internal-complibs/zlib-1.3.1/adler32.c:10-12 | All strings of n bytes, from all reduced sums, stay within 32 bits if and only if n <= 5552. |
| AdlerSums.Room | internal-complibs/zlib-1.3.1/adler32.c:96-106 | NMAX bytes fit 32 bits from any two 16-bit sums, reduced or not. |
| Adler32.Mod28 | internal-complibs/zlib-1.3.1/adler32.c:25-35 | Division-free reduction is exact below 2^28. |
| Adler32.ModAny | internal-complibs/zlib-1.3.1/adler32.c:36-40 | And on all 32-bit values. |
| Adler32.Mod63 | internal-complibs/zlib-1.3.1/adler32.c:41-53 | And on all non-negative 63-bit values. |
| Adler32.Long | internal-complibs/zlib-1.3.1/adler32.c:96-125 | Blocks of NMAX with one reduction each give the reduced sums. |
| Adler32.Adler32Z | internal-complibs/zlib-1.3.1/adler32.c:61-125 | The checksum by definition if and only if the call is regular; only a single byte after a value whose upper half is too large to be one goes wrong. |
| Adler32.IrregularCall | internal-complibs/zlib-1.3.1/adler32.c:70-78 | The byte 0 after 0xFFFFFFF0 gives an upper half of 65534 where the definition has 13. |
| Adler32.Combined | internal-complibs/zlib-1.3.1/adler32.c:133-155 | The arithmetic of adler32_combine_ yields the sums of the concatenation. |
| Adler32.Combine | internal-complibs/zlib-1.3.1/adler32.c:133-155 | adler32_combine_ of a checksum and that of the second part is the checksum of the whole. |

## Left out

- ChunkWriter.Compress: the split mode ALWAYS is admitted only where writer and reader agree; the model stops where the end of the destination is passed, and says nothing about what the code does then.
- ChunkRoundTrip.RoundTrip: the same condition on the split mode.
- ChunkRoundTrip.ItemsRoundTrip: the same, for a non-empty buffer.
- ChunkRoundTrip.SplitsRefused: what the library codecs' decoders make of a shorter split, and any decoder of a raw one, is left open.
- ChunkWriter.Context.CompressBlocks: filters and codecs work on scratch buffers that are copied to the chunk, where the code compresses in place.
- ChunkReader.Decompress: chunks are assumed to carry their real size; behaviour on damaged chunks is only modelled as far as the code's own tests go.
- ChunkReader.GetItem: a non-negative number of items and room for them, as callers must provide; the model stops where wrapped products make a region begin before the buffer or end before it begins, and where BloscLZ goes astray.
- BloscLzDecoder.Decompress: the model stops where a negative length would drive the copy out of the output; the build with unaligned 16-byte stores and the one without are a parameter; branch prediction hints have no counterpart.
- BloscLzEncoder.RoundTrip: sizes are below 2^31, as the int parameters are.
- ThreadedCall.CallHolds: says nothing of a run that has passed the end of the destination, where the model stops.
- Workers.StepInv: a worker's copy is split into arbitrary pieces but stores within one piece are atomic, and the model stops where the end of the destination is passed.
- Shares.SharesDone: what a decoder stores on its way, inside its own block, is not modelled; blocks appear piece by piece as they will be, and the model stops where one goes astray. Pool creation and reuse appear only through the barrier.
- Barrier.BarrierHolds: mutex, condition variable and thread creation are primitives, and no condition variable wakes spuriously; only the Windows one is modelled itself, without pthread_cond_signal.
- BloscLzEncoder.Compress: the compression ratio that the probe estimates with floating point is an arbitrary number; the match search covers every block width, and the wider forms of the run search, which nothing calls, are left out.
- Lz4Encoder.CompressGeneric: dictionaries, streaming, destSize mode and the tables for 32-bit pointers are not modelled.
- Lz4Decoder.Decompress: from 32 bytes of room on the shortcut also takes some blocks that end too close, and which ones is not said; partial decoding and dictionaries are not modelled; the deprecated unsafe decoder is not modelled.
- Lz4HcOptimal.Choose: prices follow the code but nothing is claimed about optimality.
- Lz4HcSearch.Context.InsertAndGetWiderMatch: prefix mode only, without dictionary contexts; index overflow after 2 GB of streaming cannot occur in one call.
- ShuffleVector.ShuffleSimd: SSE2 and AVX2 drivers share one loop with the register width as a parameter, stores are modelled byte by byte, and registers are values, so alignment and aliasing do not appear.
- BitshuffleVector.TransBitElemSimd: the branch for elements of an odd multiple of two bytes that the code marks as unused is left out, as is the big-endian bit transpose.
- Deflate.Run: block writing, stored blocks, run-length and Huffman-only strategies, preset dictionaries, parameter changes and the gzip header states are not modelled; when blocks are written and when the output is full is an arbitrary choice.
- Deflate.State.LongestMatch: the variants for FASTEST and unaligned word comparisons are left out; a held match start that slides below zero is an integer here, where the code wraps it and the distance unwraps it.
- Crc32.Crc32Z: the little-endian path; big-endian words, the ARM instructions and the table literals of crc32.h other than x2n_table are left out, the tables being those make_crc_table and braid compute.
- Compile-time detection, function pointers, environment variables, compressor names, global state and fork handling are plumbing.
- Snappy, Zstandard, zlib's trees.c and inflate are not part of this model and enter only through the codec contract.
