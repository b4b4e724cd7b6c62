// Whole calls with worker threads: compression with the fallback on a copy, and decompression.

module ThreadedCall {
  import opened Bytes
  import opened Stores
  import opened Chunk
  import ChunkReader
  import ChunkWriter
  import Shares
  import Workers

  // ----- compression -----

  /** What the workers copy when compressing did not make the buffer fit. */
  function CopyTask(job: Workers.Job, threads: nat): Shares.Task {
    Shares.Task(Shares.Plain(job.src), |job.src|, job.l.blockSize, MAX_OVERHEAD, MAX_OVERHEAD, threads)
  }

  /** The copy flag, not set so far, is set. */
  function Flagged(dest: seq<byte>): seq<byte>
    requires |dest| > 2
  {
    var flags: int := dest[2];
    dest[2 := (flags + 2) % 256]
  }

  /** The compressed size is stored in the header. */
  ghost predicate SizeStored(dest: seq<byte>, r: int, out: seq<byte>) {
    |dest| >= 16 && 0 <= r <= INT_MAX && out == Overwrite(dest, 12, Le32Bytes(r))
  }

  /** blosc_compress_context: the result `r` and the output `out` after the race `race`, which has gone on until no
      worker had a step to take, and, when that gave up without an error and there is room, the copying `copy`.
      Nothing is said of a race that has passed the end of the destination. */
  ghost predicate CallEnds(job: Workers.Job, race: seq<Workers.State>, copy: seq<Shares.State>, r: int, out: seq<byte>)
    requires job.l.blockSize > 0
  {
    && Workers.Run(job, race) && Workers.Stopped(job, race[|race| - 1])
    && var s := race[|race| - 1];
    if s.overrun then true
    else if s.giveup < 0 then r == -1 && out == s.dest
    else if s.giveup > 0 then r == s.out && SizeStored(s.dest, r, out)
    else if |job.src| + MAX_OVERHEAD > job.maxbytes then r == 0 && SizeStored(s.dest, r, out)
    else
      var t := CopyTask(job, |s.workers|);
      && s.workers != [] && Shares.Run(t, copy) && Shares.AllDone(copy[|copy| - 1])
      && |s.dest| > 2 && copy[0].dest == Flagged(s.dest)
      && r == copy[|copy| - 1].total && SizeStored(copy[|copy| - 1].dest, r, out)
  }

  /** Whatever blosc_compress_ctx admits makes a job for the workers, and a state in which they begin. */
  lemma {:induction false} CallStarts(libs: Libraries, clevel: nat, doshuffle: int, typeSize: int, src: seq<byte>, dest: seq<byte>, destsize: nat,
                                      codec: CompCode, forced: nat, mode: ChunkWriter.SplitMode, threads: nat) returns (s: Workers.State)
    requires clevel <= 9 && 0 <= doshuffle <= 2 && typeSize > 0 && 0 < |src| <= 2147483631 && 16 <= destsize <= |dest| && threads > 0
    ensures var l := ChunkWriter.LayoutFor(codec, clevel, doshuffle, typeSize, |src|, forced, mode);
      var room := if destsize > |src| + 16 then |src| + 16 else destsize;
      Workers.Initial(Workers.Job(libs, l, src, room), s) && s.dest == dest && |s.workers| == threads
      && Workers.Blocks(Workers.Job(libs, l, src, room)) > 0 && l.blockSize <= |src|
  {
    hide ChunkWriter.LayoutFor;
    var l := ChunkWriter.LayoutFor(codec, clevel, doshuffle, typeSize, |src|, forced, mode);
    ChunkWriter.LayoutMade(codec, clevel, doshuffle, typeSize, |src|, forced, mode);
    NoBlocks(|src|, l.blockSize);
    s := Workers.State(seq(threads, _ => Workers.Idle), 1, 16 + 4 * BlockCount(|src|, l.blockSize), dest, false, [], []);
  }

  /** A call with any number of threads, however they interleave, passes the end of the destination only when the
      sizes do not fit; otherwise it gives what a call with one thread promises: an error only when a codec reports
      one, 0 only when there are no 16 bytes to spare, and else a chunk that holds the buffer; nothing behind the
      destination changes. */
  lemma {:induction false} CallHolds(job: Workers.Job, race: seq<Workers.State>, copy: seq<Shares.State>, r: int, out: seq<byte>)
    requires job.l.blockSize > 0 && CallEnds(job, race, copy, r, out) && Workers.Blocks(job) > 0
    requires ChunkWriter.HeaderStart(race[0].dest, job.l, false, |job.src|) && job.l.blockSize <= |job.src|
    ensures Workers.RoomFits(job, |race[0].workers|) ==> !race[|race| - 1].overrun
    ensures !race[|race| - 1].overrun ==>
      && r <= job.maxbytes && SameFrom(out, race[0].dest, job.maxbytes) && (r < 0 <==> race[|race| - 1].giveup < 0)
      && (r > 0 ==> r <= |out| && exists memcpyed: bool :: Holds(job.libs, job.l, memcpyed, out[..r], job.src))
      && (race[|race| - 1].giveup >= 0 && |job.src| + MAX_OVERHEAD <= job.maxbytes ==> r > 0)
  {
    if Workers.RoomFits(job, |race[0].workers|) {
      Workers.NeverPasses(job, race);
    }
    if !race[|race| - 1].overrun {
      EndedHolds(job, race, copy, r, out);
    }
  }

  lemma {:induction false} EndedHolds(job: Workers.Job, race: seq<Workers.State>, copy: seq<Shares.State>, r: int, out: seq<byte>)
    requires job.l.blockSize > 0 && CallEnds(job, race, copy, r, out) && Workers.Blocks(job) > 0 && !race[|race| - 1].overrun
    requires ChunkWriter.HeaderStart(race[0].dest, job.l, false, |job.src|) && job.l.blockSize <= |job.src|
    ensures r <= job.maxbytes && SameFrom(out, race[0].dest, job.maxbytes)
    ensures r < 0 <==> race[|race| - 1].giveup < 0
    ensures r > 0 ==> r <= |out| && exists memcpyed: bool :: Holds(job.libs, job.l, memcpyed, out[..r], job.src)
    ensures race[|race| - 1].giveup >= 0 && |job.src| + MAX_OVERHEAD <= job.maxbytes ==> r > 0
  {
    hide Workers.Stopped, Holds, ChunkWriter.HeaderStart, Le32Bytes, Workers.Inv, Workers.Initial, Workers.Next, Workers.AllDone, Workers.Blocks, Shares.Run, Shares.AllDone;
    var s := race[|race| - 1];
    Workers.RunInv(job, race);
    Workers.StoppedIsDone(job, s);
    Workers.Sized(job, s);
    Workers.InvSizes(job, s);
    Workers.RunKeepsHeader(job, race);
    if s.giveup > 0 {
      Workers.RaceIsHarmless(job, race);
      Workers.ThreadedChunkHolds(job, race);
    } else if s.giveup == 0 && |job.src| + MAX_OVERHEAD <= job.maxbytes {
      ChunkWriter.HeaderKept(race[0].dest, s.dest, job.l, false, |job.src|);
      CopyHolds(job, s, copy, r, out);
    }
  }

  /** The copying makes a chunk of its own. */
  lemma {:induction false} CopyHolds(job: Workers.Job, s: Workers.State, copy: seq<Shares.State>, r: int, out: seq<byte>)
    requires Workers.WellSized(job) && s.workers != [] && ChunkWriter.HeaderStart(s.dest, job.l, false, |job.src|)
    requires job.l.blockSize <= |job.src| && |job.src| + MAX_OVERHEAD <= job.maxbytes <= |s.dest|
    requires var t := CopyTask(job, |s.workers|);
      && Shares.Run(t, copy) && Shares.AllDone(copy[|copy| - 1]) && copy[0].dest == Flagged(s.dest)
      && r == copy[|copy| - 1].total && SizeStored(copy[|copy| - 1].dest, r, out)
    ensures r == |job.src| + MAX_OVERHEAD && SameFrom(out, s.dest, job.maxbytes)
    ensures Holds(job.libs, job.l, true, out[..r], job.src)
  {
    hide ChunkWriter.HeaderStart, HeaderOk, Le32Bytes, Shares.Initial, Shares.Next, Shares.AllDone;
    var t, done := CopyTask(job, |s.workers|), copy[|copy| - 1];
    Shares.PlainDetermined(t);
    Shares.DataDone(t, job.src, copy);
    ChunkWriter.FlagSet(s.dest, job.l, |job.src|);
    assert done.dest[..16] == copy[0].dest[..16];
    ChunkWriter.HeaderKept(copy[0].dest, done.dest, job.l, true, |job.src|);
    assert out[12..16] == Le32Bytes(r);
    ChunkWriter.HeaderDone(out, done.dest, job.l, true, |job.src|, r);
    assert out[..r][16..] == done.dest[16..16 + |job.src|];
  }

  // ----- decompression -----

  /** What the workers are to read, as the header of the chunk has it. */
  function ReadTask(libs: Libraries, chunk: seq<byte>, threads: nat): Shares.Task
    requires 16 <= |chunk| && ChunkReader.ReadHeader(chunk).blockSize > 0 && ChunkReader.ReadHeader(chunk).nbytes >= 0
  {
    var h := ChunkReader.ReadHeader(chunk);
    var source := if h.flags / 2 % 2 == 1 then Shares.Plain(chunk[16..]) else Shares.Encoded(libs, ChunkReader.LayoutOf(h), chunk);
    Shares.Task(source, h.nbytes, h.blockSize, 0, 0, threads)
  }

  /** What a worker gets by blosc_d is what the machine lets it get. */
  method WorkerDecompress(libs: Libraries, chunk: seq<byte>, threads: nat, b: nat) returns (r: ChunkReader.Read)
    requires 16 <= |chunk| <= INT_MAX && threads > 0
    requires var h := ChunkReader.ReadHeader(chunk);
      0 < h.blockSize && 0 <= h.nbytes && h.typeSize > 0 && h.flags / 2 % 2 == 0 && h.flags / 32 <= 4
      && b < BlockCount(h.nbytes, h.blockSize) && 16 + 4 * BlockCount(h.nbytes, h.blockSize) <= |chunk|
    ensures Shares.May(ReadTask(libs, chunk, threads), b, r)
  {
    hide ChunkReader.Delivers, BlockCount, ChunkReader.LoadInt32;
    var h := ChunkReader.ReadHeader(chunk);
    r := ChunkReader.ReadBlock(libs, ChunkReader.LayoutOf(h), chunk, h.nbytes, b);
  }

  /** Of a chunk that holds a buffer, every block can only be read as the buffer's. */
  lemma {:induction false} HeldDetermined(libs: Libraries, l: Layout, memcpyed: bool, chunk: seq<byte>, src: seq<byte>, threads: nat)
    requires Holds(libs, l, memcpyed, chunk, src) && threads > 0
    ensures 16 <= |chunk| && ChunkReader.ReadHeader(chunk).blockSize > 0 && ChunkReader.ReadHeader(chunk).nbytes >= 0
    ensures var t := ReadTask(libs, chunk, threads); Shares.WellFormed(t) && t.n == |src| && Shares.Determined(t, src)
  {
    hide Holds, HoldsBlock, ChunkReader.LoadInt32, FilterOf, BlockCount, Block, BlockSize, ChunkReader.Sober;
    ChunkReader.HeaderRead(libs, l, memcpyed, chunk, src);
    ChunkReader.Content(libs, l, memcpyed, chunk, src);
    var t := ReadTask(libs, chunk, threads);
    if memcpyed {
      Shares.PlainDetermined(t);
    } else {
      forall b: nat, r: ChunkReader.Read | b < Shares.Blocks(t) && Shares.May(t, b, r)
        ensures r == ChunkReader.Got(Block(src, t.blockSize, b))
      {
        assert HoldsBlock(libs, l, chunk, src, b);
      }
    }
  }

  /** blosc_run_decompression_with_context with workers: the result `r` and the output `out` after the tests and,
      unless they decide, the run of the workers. The run may also have stopped outside of a block. */
  ghost predicate ReadEnds(libs: Libraries, chunk: seq<byte>, destsize: nat, threads: nat, dest: seq<byte>, run: seq<Shares.State>, r: int, astray: bool, out: seq<byte>)
    requires 16 <= |chunk| <= INT_MAX && ChunkReader.ReadHeader(chunk).cbytes == |chunk|
  {
    var h := ChunkReader.ReadHeader(chunk);
    var early := ChunkReader.EarlyResult(h, destsize);
    if early.Some? then r == early.value && out == dest && !astray
    else
      var t := ReadTask(libs, chunk, threads);
      && Shares.WellFormed(t) && Shares.Run(t, run) && run[0].dest == dest
      && var s := run[|run| - 1];
      && out == s.dest && astray == s.astray && (astray || (Shares.AllDone(s) && r == if s.giveup > 0 then s.total else -1))
  }

  /** With any number of threads and in any interleaving, a chunk gives back the buffer it holds exactly when that fits
      the destination size cast to 32 bits, and otherwise -1; nothing is stored behind the buffer. */
  lemma {:induction false} DecompressesInThreads(libs: Libraries, l: Layout, memcpyed: bool, chunk: seq<byte>, src: seq<byte>, destsize: nat, threads: nat,
                                                 dest: seq<byte>, run: seq<Shares.State>, r: int, astray: bool, out: seq<byte>)
    requires Holds(libs, l, memcpyed, chunk, src) && threads > 0 && 16 <= |chunk| <= INT_MAX && ChunkReader.ReadHeader(chunk).cbytes == |chunk|
    requires ReadEnds(libs, chunk, destsize, threads, dest, run, r, astray, out)
    ensures !astray && SameFrom(out, dest, |src|)
    ensures if |src| <= Int32(destsize) || src == [] then r == |src| <= |out| && out[..r] == src else r == -1
  {
    hide Holds, ChunkReader.EarlyResult, ChunkReader.ReadHeader, ReadTask, Shares.Initial, Shares.Next, Shares.AllDone, Shares.Determined;
    ChunkReader.Passes(libs, l, memcpyed, chunk, src, destsize);
    if src == [] {
      assert r == 0 && out[..0] == src;
    } else if |src| <= Int32(destsize) {
      HeldDetermined(libs, l, memcpyed, chunk, src, threads);
      TaskPlace(libs, chunk, threads);
      Shares.DataDone(ReadTask(libs, chunk, threads), src, run);
      assert out[0..0 + |src|] == out[..|src|];
    }
  }

  lemma {:induction false} TaskPlace(libs: Libraries, chunk: seq<byte>, threads: nat)
    requires 16 <= |chunk| && ChunkReader.ReadHeader(chunk).blockSize > 0 && ChunkReader.ReadHeader(chunk).nbytes >= 0
    ensures ReadTask(libs, chunk, threads).base == 0 && ReadTask(libs, chunk, threads).start == 0
  {
  }

  /** And if a block fails to be read, the call fails: a finished run either has all blocks or returns -1. */
  lemma {:induction false} FailsInThreads(libs: Libraries, chunk: seq<byte>, destsize: nat, threads: nat,
                                          dest: seq<byte>, run: seq<Shares.State>, r: int, out: seq<byte>)
    requires 16 <= |chunk| <= INT_MAX && ChunkReader.ReadHeader(chunk).cbytes == |chunk|
    requires ChunkReader.EarlyResult(ChunkReader.ReadHeader(chunk), destsize).None?
    requires ReadEnds(libs, chunk, destsize, threads, dest, run, r, false, out)
    ensures var t, s := ReadTask(libs, chunk, threads), run[|run| - 1];
      if r >= 0 then r == Shares.Count(s.got, 0, Shares.Blocks(t)) && forall b: nat :: b < Shares.Blocks(t) ==> Shares.InPlace(t, s, b)
      else r == -1 && Shares.FailedWith(t, s.giveup)
  {
    hide ChunkReader.EarlyResult, ChunkReader.ReadHeader, ReadTask, Shares.Initial, Shares.Next, Shares.AllDone, Shares.InPlace, Shares.FailedWith, Shares.OthersKept, Shares.GotOk;
    TaskPlace(libs, chunk, threads);
    Shares.SharesDone(ReadTask(libs, chunk, threads), run);
  }
}
