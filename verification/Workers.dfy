// The racing workers of t_blosc as a state machine: any number of threads claim blocks, compress them
// privately, take a place in the output inside the critical section and copy outside of it.

module Workers {
  import opened Bytes
  import opened Stores
  import opened Chunk
  import opened Counting
  import ChunkWriter

  /** What all workers read and none changes. */
  datatype Job = Job(libs: Libraries, l: Layout, src: seq<byte>, maxbytes: nat)

  function Blocks(job: Job): nat
    requires job.l.blockSize > 0
  {
    BlockCount(|job.src|, job.l.blockSize)
  }

  /** Where the first block goes: behind the header and the index. */
  function Base(job: Job): nat
    requires job.l.blockSize > 0
  {
    16 + 4 * Blocks(job)
  }

  /** A place taken in the output: which block, where, its compressed bytes, by whom, and how much of it has
      been copied. This is history: `block`, `at` and `bytes` are locals of the worker until it has copied them. */
  datatype Entry = Entry(block: nat, at: nat, bytes: seq<byte>, owner: nat, copied: nat)

  /** Where a worker stands between two atomic steps. A negative `code` is a codec error. */
  datatype Worker =
    | Idle
    | Claimed(block: nat)
    | Compressed(block: nat, code: int, bytes: seq<byte>)
    | Checked(block: nat, code: int, bytes: seq<byte>)
    | Copying(entry: nat, next: nat)
    | Done

  /** What became of a claimed block: history only. */
  datatype Fate = Held(worker: nat) | Logged(entry: nat) | Dropped

  /** Shared counters and memory, the workers, whether a store has passed the end of the destination (then the
      model stops), and the history. thread_nblock is |fates| - 1. */
  datatype State = State(workers: seq<Worker>, giveup: int, out: nat, dest: seq<byte>, overrun: bool, log: seq<Entry>, fates: seq<Fate>)

  /** The sizes that initialize_context_compression admits. */
  ghost predicate WellSized(job: Job) {
    && 0 < job.l.typeSize <= MAX_TYPESIZE && 0 < job.l.blockSize <= MAX_BLOCKSIZE
    && |job.src| <= MAX_BUFFERSIZE && (job.l.blockSize >= 64 || |job.src| < 256) && job.maxbytes <= INT_MAX
  }

  /** The state when parallel_blosc has set the sentinels. */
  ghost predicate Initial(job: Job, s: State) {
    && WellSized(job) && s.workers != [] && (forall i :: 0 <= i < |s.workers| ==> s.workers[i] == Idle)
    && s.giveup == 1 && s.log == [] && s.fates == [] && s.out == Base(job) && 16 <= job.maxbytes <= |s.dest|
    && !s.overrun
  }

  /** The size of a worker's private buffer. */
  function Private(l: Layout): nat {
    l.blockSize + 4 * l.typeSize
  }

  /** What blosc_c delivers: nothing, or an encoded block that fits the private buffer. */
  ghost predicate Delivers(job: Job, block: nat, bytes: seq<byte>)
    requires job.l.blockSize > 0 && block < Blocks(job)
  {
    bytes == [] || (|bytes| <= Private(job.l)
      && BlockOk(job.libs, job.l, bytes, Block(job.src, job.l.blockSize, block), IsLeftover(|job.src|, job.l.blockSize, block)))
  }

  // ----- the atomic steps of worker `i` -----

  /** The first claim, under the mutex. */
  ghost predicate Claim(s: State, s': State, i: nat) {
    && i < |s.workers| && s.workers[i] == Idle
    && s' == s.(workers := s.workers[i := Claimed(|s.fates|)], fates := s.fates + [Held(i)])
  }

  /** The loop condition fails: no block left, or somebody gave up. */
  ghost predicate Leave(job: Job, s: State, s': State, i: nat)
    requires job.l.blockSize > 0
  {
    && i < |s.workers| && s.workers[i].Claimed? && s.workers[i].block < |s.fates|
    && (s.workers[i].block >= Blocks(job) || s.giveup <= 0)
    && s' == s.(workers := s.workers[i := Done], fates := s.fates[s.workers[i].block := Dropped])
  }

  /** Private compression into the worker's own buffer. */
  ghost predicate Compress(job: Job, s: State, s': State, i: nat, code: int, bytes: seq<byte>)
    requires job.l.blockSize > 0
  {
    && i < |s.workers| && s.workers[i].Claimed? && s.workers[i].block < Blocks(job) && s.giveup > 0
    && (code < 0 || Delivers(job, s.workers[i].block, bytes))
    && s' == s.(workers := s.workers[i := Compressed(s.workers[i].block, code, bytes)])
  }

  /** Another worker's failure is noticed. */
  ghost predicate Notice(s: State, s': State, i: nat) {
    && i < |s.workers| && s.workers[i].Compressed? && s.workers[i].block < |s.fates| && s.giveup <= 0
    && s' == s.(workers := s.workers[i := Done], fates := s.fates[s.workers[i].block := Dropped])
  }

  ghost predicate Check(s: State, s': State, i: nat) {
    && i < |s.workers| && s.workers[i].Compressed? && s.giveup > 0
    && s' == s.(workers := s.workers[i := Checked(s.workers[i].block, s.workers[i].code, s.workers[i].bytes)])
  }

  /** A codec error is published. */
  ghost predicate Fail(s: State, s': State, i: nat) {
    && i < |s.workers| && s.workers[i].Checked? && s.workers[i].code < 0 && s.workers[i].block < |s.fates|
    && s' == s.(workers := s.workers[i := Done], giveup := s.workers[i].code, fates := s.fates[s.workers[i].block := Dropped])
  }

  /** A worker is about to store the start of its block and to claim a place: the index word lies inside the destination. */
  ghost predicate IndexInside(job: Job, s: State, i: nat)
    requires i < |s.workers| && s.workers[i].Checked?
  {
    16 + 4 * s.workers[i].block + 4 <= job.maxbytes
  }

  /** The code's test says that the block does not fit. */
  ghost predicate Full(job: Job, s: State, i: nat)
    requires i < |s.workers| && s.workers[i].Checked?
  {
    s.workers[i].bytes == [] || Exceeds(s.out, |s.workers[i].bytes|, job.maxbytes)
  }

  /** The critical section when the block is incompressible or the output is full: its start is stored first. */
  ghost predicate Refuse(job: Job, s: State, s': State, i: nat) {
    && i < |s.workers| && s.workers[i].Checked? && s.workers[i].code >= 0 && s.workers[i].block < |s.fates|
    && IndexInside(job, s, i) && job.maxbytes <= |s.dest| && s.out < 0x1_0000_0000
    && Full(job, s, i)
    && s' == s.(workers := s.workers[i := Done], giveup := 0, fates := s.fates[s.workers[i].block := Dropped],
                dest := Overwrite(s.dest, 16 + 4 * s.workers[i].block, Le32Bytes(s.out)))
  }

  /** The critical section: start stored, next block claimed, output counter advanced. */
  ghost predicate Place(job: Job, s: State, s': State, i: nat) {
    && i < |s.workers| && s.workers[i].Checked? && s.workers[i].code >= 0 && s.workers[i].block < |s.fates|
    && IndexInside(job, s, i) && job.maxbytes <= |s.dest| && s.out < 0x1_0000_0000
    && !Full(job, s, i) && s.out + |s.workers[i].bytes| <= job.maxbytes
    && var w := s.workers[i];
    s' == s.(workers := s.workers[i := Copying(|s.log|, |s.fates|)],
             fates := s.fates[w.block := Logged(|s.log|)] + [Held(i)],
             dest := Overwrite(s.dest, 16 + 4 * w.block, Le32Bytes(s.out)),
             log := s.log + [Entry(w.block, s.out, w.bytes, i, 0)],
             out := s.out + |w.bytes|)
  }

  /** The end of the destination is passed: by the start of the block, or by its copy because the code's test,
      whose sum has wrapped, says that it fits. */
  ghost predicate Pass(job: Job, s: State, s': State, i: nat) {
    && i < |s.workers| && s.workers[i].Checked? && s.workers[i].code >= 0
    && (!IndexInside(job, s, i) || (!Full(job, s, i) && s.out + |s.workers[i].bytes| > job.maxbytes))
    && s' == s.(overrun := true)
  }

  /** Some more bytes are copied, outside of any lock. */
  ghost predicate Copy(s: State, s': State, i: nat, upto: nat) {
    && i < |s.workers| && s.workers[i].Copying? && s.workers[i].entry < |s.log|
    && var e := s.log[s.workers[i].entry];
    && e.copied < upto <= |e.bytes| && e.at + |e.bytes| <= |s.dest|
    && s' == s.(dest := Overwrite(s.dest, e.at + e.copied, e.bytes[e.copied..upto]),
                log := s.log[s.workers[i].entry := e.(copied := upto)])
  }

  /** The copy is complete; the worker goes on with the block it claimed in the critical section. */
  ghost predicate Resume(s: State, s': State, i: nat) {
    && i < |s.workers| && s.workers[i].Copying? && s.workers[i].entry < |s.log|
    && s.log[s.workers[i].entry].copied == |s.log[s.workers[i].entry].bytes|
    && s' == s.(workers := s.workers[i := Claimed(s.workers[i].next)])
  }

  /** One step of some worker. */
  ghost predicate Next(job: Job, s: State, s': State)
    requires job.l.blockSize > 0
  {
    exists i: nat :: StepOf(job, s, s', i)
  }

  ghost predicate StepOf(job: Job, s: State, s': State, i: nat)
    requires job.l.blockSize > 0
  {
    && !s.overrun
    && (|| Claim(s, s', i) || Leave(job, s, s', i) || Notice(s, s', i) || Check(s, s', i) || Fail(s, s', i)
        || Refuse(job, s, s', i) || Place(job, s, s', i) || Pass(job, s, s', i) || Resume(s, s', i)
        || (exists code: int, bytes: seq<byte> :: Compress(job, s, s', i, code, bytes))
        || (exists upto: nat :: Copy(s, s', i, upto)))
  }

  /** The private compression of a worker: blosc_c into its own buffer, with no bytes used yet. There no sum wraps. */
  method WorkerCompress(job: Job, p: ChunkWriter.Params, block: nat) returns (bytes: seq<byte>)
    requires Meets(job.libs) && 1 <= p.clevel <= 9 && p.layout == job.l && p.layout.format == Format(p.codec)
    requires 0 < job.l.typeSize <= MAX_TYPESIZE && 0 < job.l.blockSize <= MAX_BLOCKSIZE && block < Blocks(job)
    requires ChunkWriter.Divides(job.l, BlockSize(|job.src|, job.l.blockSize, block), IsLeftover(|job.src|, job.l.blockSize, block))
    requires BlockSize(|job.src|, job.l.blockSize, block) > 0
    ensures Delivers(job, block, bytes)
  {
    hide Meets, BlockCount, ChunkWriter.Divides, ChunkWriter.Cut, ChunkWriter.SplitSize, ChunkWriter.RawSplits, BlockOk, BlockSize, Want, EncodedIn;
    var left := IsLeftover(|job.src|, job.l.blockSize, block);
    var tmp2 := new byte[Private(job.l)](_ => 0);
    ChunkWriter.AskedRoom(job.libs, p.codec, job.l, |job.src|, block);
    ChunkWriter.CutOf(job.l, BlockSize(|job.src|, job.l.blockSize, block), left);
    ghost var raw;
    var o: ChunkWriter.Outcome;
    o, raw := ChunkWriter.CompressBlock(job.libs, p, Block(job.src, job.l.blockSize, block), left, 0, Private(job.l), tmp2);
    match o {
      case Stored(size) =>
        bytes := tmp2[0..size];
        ChunkWriter.AsExpected(job.libs, job.l, bytes, Block(job.src, job.l.blockSize, block), left);
      case NoRoom => bytes := [];
      case Overrun(_) => assert false;
    }
  }

  // ----- the invariant -----

  /** The block a worker is responsible for; -1 when there is none. */
  function Current(w: Worker): int {
    match w
    case Idle => -1
    case Claimed(b) => b
    case Compressed(b, _, _) => b
    case Checked(b, _, _) => b
    case Copying(_, next) => next
    case Done => -1
  }

  /** Every claimed block has exactly one holder or log entry, and the other way round. */
  ghost predicate FatesOk(job: Job, s: State)
    requires job.l.blockSize > 0
  {
    && (forall b :: 0 <= b < |s.fates| ==> FateOk(job, s, b))
    && (forall i :: 0 <= i < |s.workers| ==> HolderOk(s, i))
    && (forall k :: 0 <= k < |s.log| ==> s.log[k].block < |s.fates| && s.fates[s.log[k].block] == Logged(k) && s.log[k].block < Blocks(job))
  }

  ghost predicate FateOk(job: Job, s: State, b: nat)
    requires job.l.blockSize > 0 && b < |s.fates|
  {
    match s.fates[b]
    case Held(i) => i < |s.workers| && Current(s.workers[i]) == b
    case Logged(k) => k < |s.log| && s.log[k].block == b
    case Dropped => b >= Blocks(job) || s.giveup <= 0
  }

  ghost predicate HolderOk(s: State, i: nat)
    requires i < |s.workers|
  {
    var b := Current(s.workers[i]);
    b >= 0 ==> b < |s.fates| && s.fates[b] == Held(i)
  }

  /** What a worker carries is what blosc_c delivered for its block. */
  ghost predicate CarriesOk(job: Job, w: Worker)
    requires job.l.blockSize > 0
  {
    w.Compressed? || w.Checked? ==> w.block < Blocks(job) && (w.code < 0 || Delivers(job, w.block, w.bytes))
  }

  /** A worker that has left saw no block left, unless somebody gave up. */
  ghost predicate WorkersOk(job: Job, s: State)
    requires job.l.blockSize > 0
  {
    && (forall i :: 0 <= i < |s.workers| ==> CarriesOk(job, s.workers[i]))
    && (forall i :: 0 <= i < |s.workers| && s.workers[i] == Done && s.giveup > 0 ==> |s.fates| > Blocks(job))
  }

  /** Entries follow each other without gaps from the base up to the output counter. */
  ghost predicate Tiles(log: seq<Entry>, base: nat, out: nat) {
    if log == [] then out == base
    else
      var last := log[|log| - 1];
      last.bytes != [] && out == last.at + |last.bytes| && Tiles(log[..|log| - 1], base, last.at)
  }

  /** The stored start of a block. */
  ghost predicate StartIs(dest: seq<byte>, block: nat, at: nat) {
    16 + 4 * block + 4 <= |dest| && Start(dest, block) == at
  }

  /** The copied part of an entry is in place. */
  ghost predicate PieceIs(dest: seq<byte>, e: Entry) {
    e.copied <= |e.bytes| && e.at + e.copied <= |dest| && dest[e.at..e.at + e.copied] == e.bytes[..e.copied]
  }

  /** What an entry says about memory: its start is stored and its copied part is in place; an entry not yet
      copied has its owner still copying. */
  ghost predicate EntryOk(job: Job, s: State, k: nat)
    requires job.l.blockSize > 0 && k < |s.log|
  {
    var e := s.log[k];
    && e.block < Blocks(job) && e.bytes != [] && Delivers(job, e.block, e.bytes)
    && Base(job) <= e.at && e.at + |e.bytes| <= s.out
    && StartIs(s.dest, e.block, e.at) && PieceIs(s.dest, e)
    && (e.copied < |e.bytes| ==> e.owner < |s.workers| && s.workers[e.owner].Copying? && s.workers[e.owner].entry == k)
  }

  ghost predicate MemoryOk(job: Job, s: State)
    requires job.l.blockSize > 0
  {
    && Tiles(s.log, Base(job), s.out)
    && (forall k :: 0 <= k < |s.log| ==> EntryOk(job, s, k))
    && (forall i :: 0 <= i < |s.workers| && s.workers[i].Copying? ==> s.workers[i].entry < |s.log| && s.log[s.workers[i].entry].owner == i)
  }

  ghost predicate Inv(job: Job, s: State) {
    && WellSized(job) && s.workers != [] && 16 <= job.maxbytes <= |s.dest|
    && Base(job) <= s.out < 0x8000_0000 && (s.log != [] ==> s.out <= job.maxbytes)
    && FatesOk(job, s) && WorkersOk(job, s) && MemoryOk(job, s)
  }

  // ----- the initial state -----

  lemma {:induction false} InitialInv(job: Job, s: State)
    requires Initial(job, s)
    ensures Inv(job, s)
  {
    hide BlockCount, Delivers;
    ChunkWriter.IndexFits(|job.src|, job.l.blockSize);
  }

  // ----- entries lie apart -----

  lemma {:induction false} TilesOrdered(log: seq<Entry>, base: nat, out: nat, j: nat, k: nat)
    requires Tiles(log, base, out) && j < k < |log|
    ensures log[j].at + |log[j].bytes| <= log[k].at
    decreases |log|
  {
    var n := |log| - 1;
    if k < n {
      TilesOrdered(log[..n], base, log[n].at, j, k);
    } else {
      TilesEnd(log[..n], base, log[n].at, j);
    }
  }

  lemma {:induction false} TilesEnd(log: seq<Entry>, base: nat, out: nat, j: nat)
    requires Tiles(log, base, out) && j < |log|
    ensures base <= log[j].at && log[j].at + |log[j].bytes| <= out
    decreases |log|
  {
    var n := |log| - 1;
    TilesGrow(log, base, out);
    if j < n {
      TilesEnd(log[..n], base, log[n].at, j);
    } else {
      TilesGrow(log[..n], base, log[n].at);
    }
  }

  lemma {:induction false} TilesGrow(log: seq<Entry>, base: nat, out: nat)
    requires Tiles(log, base, out)
    ensures base <= out
    decreases |log|
  {
    if log != [] {
      var n := |log| - 1;
      TilesGrow(log[..n], base, log[n].at);
    }
  }

  /** Changing how much of an entry has been copied does not move anything. */
  lemma {:induction false} TilesCopied(log: seq<Entry>, base: nat, out: nat, k: nat, upto: nat)
    requires Tiles(log, base, out) && k < |log|
    ensures Tiles(log[k := log[k].(copied := upto)], base, out)
    decreases |log|
  {
    var n := |log| - 1;
    var log' := log[k := log[k].(copied := upto)];
    if k < n {
      TilesCopied(log[..n], base, log[n].at, k, upto);
      assert log'[..n] == log[..n][k := log[k].(copied := upto)];
    } else {
      assert log'[..n] == log[..n];
    }
  }

  // ----- the steps keep the claims in order -----

  /** The worker goes on with the same block. */
  lemma {:induction false} FatesSame(job: Job, s: State, s': State, i: nat, w: Worker)
    requires job.l.blockSize > 0 && FatesOk(job, s) && i < |s.workers| && Current(w) == Current(s.workers[i])
    requires s'.workers == s.workers[i := w] && s'.fates == s.fates && s'.log == s.log && s'.giveup == s.giveup
    ensures FatesOk(job, s')
  {
    hide Blocks;
    forall b | 0 <= b < |s'.fates|
      ensures FateOk(job, s', b)
    {
      assert FateOk(job, s, b);
    }
    forall j | 0 <= j < |s'.workers|
      ensures HolderOk(s', j)
    {
      assert HolderOk(s, j);
    }
  }

  /** The worker drops its block and leaves. */
  lemma {:induction false} FatesDropped(job: Job, s: State, s': State, i: nat)
    requires job.l.blockSize > 0 && FatesOk(job, s) && i < |s.workers| && 0 <= Current(s.workers[i]) < |s.fates|
    requires s'.workers == s.workers[i := Done] && s'.fates == s.fates[Current(s.workers[i]) := Dropped] && s'.log == s.log
    requires s'.giveup <= 0 || (s'.giveup == s.giveup && Current(s.workers[i]) >= Blocks(job))
    requires s.giveup <= 0 ==> s'.giveup <= 0
    ensures FatesOk(job, s')
  {
    hide Blocks;
    assert HolderOk(s, i);
    forall b | 0 <= b < |s'.fates|
      ensures FateOk(job, s', b)
    {
      assert FateOk(job, s, b);
    }
    forall j | 0 <= j < |s'.workers|
      ensures HolderOk(s', j)
    {
      assert HolderOk(s, j);
    }
  }

  lemma {:induction false} FatesClaimed(job: Job, s: State, s': State, i: nat)
    requires job.l.blockSize > 0 && FatesOk(job, s) && Claim(s, s', i)
    ensures FatesOk(job, s')
  {
    hide Blocks;
    forall b | 0 <= b < |s'.fates|
      ensures FateOk(job, s', b)
    {
      if b < |s.fates| {
        assert FateOk(job, s, b);
      }
    }
    forall j | 0 <= j < |s'.workers|
      ensures HolderOk(s', j)
    {
      assert HolderOk(s, j);
    }
  }

  lemma {:induction false} FatesPlaced(job: Job, s: State, s': State, i: nat)
    requires job.l.blockSize > 0 && FatesOk(job, s) && Place(job, s, s', i) && s.workers[i].block < Blocks(job)
    ensures FatesOk(job, s')
  {
    hide Blocks, Overwrite, Le32Bytes;
    var block := s.workers[i].block;
    assert HolderOk(s, i);
    forall b | 0 <= b < |s'.fates|
      ensures FateOk(job, s', b)
    {
      if b < |s.fates| {
        assert FateOk(job, s, b);
      }
    }
    forall j | 0 <= j < |s'.workers|
      ensures HolderOk(s', j)
    {
      assert HolderOk(s, j);
    }
  }

  /** Copying changes no block of the log. */
  lemma {:induction false} FatesCopied(job: Job, s: State, s': State, i: nat, upto: nat)
    requires job.l.blockSize > 0 && FatesOk(job, s) && Copy(s, s', i, upto)
    ensures FatesOk(job, s')
  {
    hide Blocks, Overwrite;
    forall b | 0 <= b < |s'.fates|
      ensures FateOk(job, s', b)
    {
      assert FateOk(job, s, b);
    }
    forall j | 0 <= j < |s'.workers|
      ensures HolderOk(s', j)
    {
      assert HolderOk(s, j);
    }
  }

  // ----- the steps keep the memory in order -----

  /** Nothing in memory changes and no copy in progress is given up. */
  lemma {:induction false} MemorySame(job: Job, s: State, s': State, i: nat, w: Worker)
    requires job.l.blockSize > 0 && MemoryOk(job, s) && i < |s.workers| && !w.Copying?
    requires s.workers[i].Copying? ==> s.log[s.workers[i].entry].copied == |s.log[s.workers[i].entry].bytes|
    requires s'.workers == s.workers[i := w] && s'.log == s.log && s'.dest == s.dest && s'.out == s.out
    ensures MemoryOk(job, s')
  {
    hide Blocks, Delivers, StartIs, PieceIs, Tiles;
    forall k | 0 <= k < |s'.log|
      ensures EntryOk(job, s', k)
    {
      assert EntryOk(job, s, k);
    }
  }

  /** A store to the index word of a block that no entry has. */
  lemma {:induction false} MemoryRefused(job: Job, s: State, s': State, i: nat)
    requires job.l.blockSize > 0 && FatesOk(job, s) && MemoryOk(job, s) && Refuse(job, s, s', i) && s.workers[i].block < Blocks(job)
    ensures MemoryOk(job, s')
  {
    hide Blocks, Delivers, StartIs, PieceIs, Tiles, Overwrite, Le32Bytes;
    forall k | 0 <= k < |s'.log|
      ensures EntryOk(job, s', k)
    {
      assert EntryOk(job, s, k);
      assert HolderOk(s, i);
      IndexStored(job, s.dest, s'.dest, s.workers[i].block, s.out, s.log[k]);
    }
  }

  lemma {:induction false} IndexStored(job: Job, dest: seq<byte>, dest': seq<byte>, block: nat, at: nat, e: Entry)
    requires job.l.blockSize > 0 && 16 + 4 * block + 4 <= |dest| && at < 0x1_0000_0000 && block < Blocks(job)
    requires dest' == Overwrite(dest, 16 + 4 * block, Le32Bytes(at)) && e.block != block && Base(job) <= e.at
    requires StartIs(dest, e.block, e.at) && PieceIs(dest, e)
    ensures StartIs(dest', e.block, e.at) && PieceIs(dest', e)
  {
    hide Blocks, Le32Bytes, Le32, Overwrite;
    SameStart(dest, dest', e.block);
    assert dest'[e.at..e.at + e.copied] == dest[e.at..e.at + e.copied];
  }

  lemma {:induction false} SameStart(dest: seq<byte>, dest': seq<byte>, block: nat)
    requires |dest| == |dest'| && 16 + 4 * block + 4 <= |dest|
    requires forall k :: 16 + 4 * block <= k < 16 + 4 * block + 4 ==> dest'[k] == dest[k]
    ensures Start(dest', block) == Start(dest, block)
  {
  }

  lemma {:induction false} NewStart(dest: seq<byte>, block: nat, at: nat)
    requires 16 + 4 * block + 4 <= |dest| && at < 0x1_0000_0000
    ensures StartIs(Overwrite(dest, 16 + 4 * block, Le32Bytes(at)), block, at)
  {
    hide Le32Bytes, Overwrite;
    var dest' := Overwrite(dest, 16 + 4 * block, Le32Bytes(at));
    var word := Le32Bytes(at);
    assert dest'[16 + 4 * block..][0] == word[0] && dest'[16 + 4 * block..][1] == word[1];
    assert dest'[16 + 4 * block..][2] == word[2] && dest'[16 + 4 * block..][3] == word[3];
  }

  lemma {:induction false} MemoryPlaced(job: Job, s: State, s': State, i: nat)
    requires Inv(job, s) && Place(job, s, s', i)
    ensures MemoryOk(job, s')
  {
    hide Blocks, Delivers, StartIs, PieceIs, Overwrite, Le32Bytes;
    var w := s.workers[i];
    assert HolderOk(s, i) && CarriesOk(job, w);
    assert s'.log[..|s.log|] == s.log;
    NewStart(s.dest, w.block, s.out);
    NothingCopied(s'.dest, s'.log[|s.log|]);
    forall k | 0 <= k < |s'.log|
      ensures EntryOk(job, s', k)
    {
      if k < |s.log| {
        assert EntryOk(job, s, k);
        IndexStored(job, s.dest, s'.dest, w.block, s.out, s.log[k]);
      }
    }
  }

  lemma {:induction false} NothingCopied(dest: seq<byte>, e: Entry)
    requires e.copied == 0 && e.at <= |dest|
    ensures PieceIs(dest, e)
  {
  }

  lemma {:induction false} MemoryCopied(job: Job, s: State, s': State, i: nat, upto: nat)
    requires Inv(job, s) && Copy(s, s', i, upto)
    ensures MemoryOk(job, s')
  {
    hide Blocks, Delivers, StartIs, PieceIs, Overwrite, Tiles;
    var n := s.workers[i].entry;
    TilesCopied(s.log, Base(job), s.out, n, upto);
    assert EntryOk(job, s, n);
    forall k | 0 <= k < |s'.log|
      ensures EntryOk(job, s', k)
    {
      assert EntryOk(job, s, k);
      if k == n {
        PieceGrows(s.dest, s'.dest, s.log[n], upto);
      } else {
        if k < n {
          TilesOrdered(s.log, Base(job), s.out, k, n);
        } else {
          TilesOrdered(s.log, Base(job), s.out, n, k);
        }
        PieceApart(s.dest, s'.dest, s.log[n], upto, s.log[k]);
      }
      StartApart(job, s.dest, s'.dest, s.log[n], upto, s.log[k]);
    }
  }

  lemma {:induction false} PieceGrows(dest: seq<byte>, dest': seq<byte>, e: Entry, upto: nat)
    requires PieceIs(dest, e) && e.copied < upto <= |e.bytes| && e.at + |e.bytes| <= |dest|
    requires dest' == Overwrite(dest, e.at + e.copied, e.bytes[e.copied..upto])
    ensures PieceIs(dest', e.(copied := upto))
  {
    hide Overwrite;
    forall j | 0 <= j < upto
      ensures dest'[e.at..e.at + upto][j] == e.bytes[..upto][j]
    {
      if j < e.copied {
        assert dest'[e.at + j] == dest[e.at..e.at + e.copied][j] == e.bytes[..e.copied][j];
      }
    }
    assert dest'[e.at..e.at + upto] == e.bytes[..upto];
  }

  lemma {:induction false} PieceApart(dest: seq<byte>, dest': seq<byte>, e: Entry, upto: nat, other: Entry)
    requires PieceIs(dest, other) && e.copied < upto <= |e.bytes| && e.at + |e.bytes| <= |dest|
    requires other.at + |other.bytes| <= e.at || e.at + |e.bytes| <= other.at
    requires dest' == Overwrite(dest, e.at + e.copied, e.bytes[e.copied..upto])
    ensures PieceIs(dest', other)
  {
    hide Overwrite;
    assert dest'[other.at..other.at + other.copied] == dest[other.at..other.at + other.copied];
  }

  lemma {:induction false} StartApart(job: Job, dest: seq<byte>, dest': seq<byte>, e: Entry, upto: nat, other: Entry)
    requires job.l.blockSize > 0 && StartIs(dest, other.block, other.at) && e.copied < upto <= |e.bytes| && e.at + |e.bytes| <= |dest|
    requires Base(job) <= e.at && other.block < Blocks(job)
    requires dest' == Overwrite(dest, e.at + e.copied, e.bytes[e.copied..upto])
    ensures StartIs(dest', other.block, other.at)
  {
    hide Overwrite, Blocks, Start;
    SameStart(dest, dest', other.block);
  }

  // ----- every step, every run -----

  lemma {:induction false} WorkersChanged(job: Job, s: State, s': State, i: nat, w: Worker)
    requires job.l.blockSize > 0 && WorkersOk(job, s) && i < |s.workers| && s'.workers == s.workers[i := w] && CarriesOk(job, w)
    requires |s.fates| <= |s'.fates| && (s'.giveup == s.giveup || s'.giveup <= 0)
    requires w == Done && s'.giveup > 0 ==> |s'.fates| > Blocks(job)
    ensures WorkersOk(job, s')
  {
    hide Blocks, Delivers;
  }

  lemma {:induction false} ClaimInv(job: Job, s: State, s': State, i: nat)
    requires Inv(job, s) && Claim(s, s', i)
    ensures Inv(job, s')
  {
    hide Blocks, FatesOk, WorkersOk, MemoryOk, Delivers;
    FatesClaimed(job, s, s', i);
    WorkersChanged(job, s, s', i, s'.workers[i]);
    MemorySame(job, s, s', i, s'.workers[i]);
  }

  /** A worker that leaves, for whatever reason. */
  lemma {:induction false} LeaveInv(job: Job, s: State, s': State, i: nat)
    requires Inv(job, s) && (Leave(job, s, s', i) || Notice(s, s', i) || Fail(s, s', i))
    ensures Inv(job, s')
  {
    hide Blocks, FatesOk, WorkersOk, MemoryOk, Delivers;
    FatesDropped(job, s, s', i);
    WorkersChanged(job, s, s', i, Done);
    MemorySame(job, s, s', i, Done);
  }

  lemma {:induction false} CompressInv(job: Job, s: State, s': State, i: nat, code: int, bytes: seq<byte>)
    requires Inv(job, s) && Compress(job, s, s', i, code, bytes)
    ensures Inv(job, s')
  {
    hide Blocks, FatesOk, WorkersOk, MemoryOk, Delivers;
    FatesSame(job, s, s', i, s'.workers[i]);
    WorkersChanged(job, s, s', i, s'.workers[i]);
    MemorySame(job, s, s', i, s'.workers[i]);
  }

  lemma {:induction false} CheckInv(job: Job, s: State, s': State, i: nat)
    requires Inv(job, s) && Check(s, s', i)
    ensures Inv(job, s')
  {
    hide Blocks, FatesOk, MemoryOk, Delivers;
    assert CarriesOk(job, s.workers[i]);
    FatesSame(job, s, s', i, s'.workers[i]);
    WorkersChanged(job, s, s', i, s'.workers[i]);
    MemorySame(job, s, s', i, s'.workers[i]);
  }

  lemma {:induction false} ResumeInv(job: Job, s: State, s': State, i: nat)
    requires Inv(job, s) && Resume(s, s', i)
    ensures Inv(job, s')
  {
    hide Blocks, FatesOk, WorkersOk, MemoryOk, Delivers;
    FatesSame(job, s, s', i, s'.workers[i]);
    WorkersChanged(job, s, s', i, s'.workers[i]);
    MemorySame(job, s, s', i, s'.workers[i]);
  }

  lemma {:induction false} RefuseInv(job: Job, s: State, s': State, i: nat)
    requires Inv(job, s) && Refuse(job, s, s', i)
    ensures Inv(job, s')
  {
    hide Blocks, FatesOk, MemoryOk, Delivers, Overwrite, Le32Bytes;
    assert CarriesOk(job, s.workers[i]);
    FatesDropped(job, s, s', i);
    WorkersChanged(job, s, s', i, Done);
    MemoryRefused(job, s, s', i);
  }

  lemma {:induction false} PlaceInv(job: Job, s: State, s': State, i: nat)
    requires Inv(job, s) && Place(job, s, s', i)
    ensures Inv(job, s')
  {
    hide Blocks, FatesOk, MemoryOk, Delivers, Overwrite, Le32Bytes;
    assert CarriesOk(job, s.workers[i]);
    FatesPlaced(job, s, s', i);
    WorkersChanged(job, s, s', i, s'.workers[i]);
    MemoryPlaced(job, s, s', i);
  }

  lemma {:induction false} PassInv(job: Job, s: State, s': State, i: nat)
    requires Inv(job, s) && Pass(job, s, s', i)
    ensures Inv(job, s')
  {
    hide Blocks, Delivers, Full, IndexInside, StartIs, PieceIs, Tiles;
    forall b | 0 <= b < |s'.fates|
      ensures FateOk(job, s', b)
    {
      assert FateOk(job, s, b);
    }
    forall j | 0 <= j < |s'.workers|
      ensures HolderOk(s', j)
    {
      assert HolderOk(s, j);
    }
    forall k | 0 <= k < |s'.log|
      ensures EntryOk(job, s', k)
    {
      assert EntryOk(job, s, k);
    }
  }

  lemma {:induction false} CopyInv(job: Job, s: State, s': State, i: nat, upto: nat)
    requires Inv(job, s) && Copy(s, s', i, upto)
    ensures Inv(job, s')
  {
    hide Blocks, FatesOk, MemoryOk, Delivers, Overwrite;
    FatesCopied(job, s, s', i, upto);
    MemoryCopied(job, s, s', i, upto);
  }

  /** Every atomic step of every worker keeps the invariant. */
  lemma {:induction false} StepInv(job: Job, s: State, s': State)
    requires Inv(job, s) && Next(job, s, s')
    ensures Inv(job, s')
  {
    hide Inv, Claim, Leave, Notice, Check, Fail, Refuse, Place, Pass, Resume, Compress, Copy;
    InvSizes(job, s);
    var i: nat :| StepOf(job, s, s', i);
    if Claim(s, s', i) {
      ClaimInv(job, s, s', i);
    } else if Leave(job, s, s', i) || Notice(s, s', i) || Fail(s, s', i) {
      LeaveInv(job, s, s', i);
    } else if Check(s, s', i) {
      CheckInv(job, s, s', i);
    } else if Refuse(job, s, s', i) {
      RefuseInv(job, s, s', i);
    } else if Place(job, s, s', i) {
      PlaceInv(job, s, s', i);
    } else if Pass(job, s, s', i) {
      PassInv(job, s, s', i);
    } else if Resume(s, s', i) {
      ResumeInv(job, s, s', i);
    } else if exists code: int, bytes: seq<byte> :: Compress(job, s, s', i, code, bytes) {
      var code: int, bytes: seq<byte> :| Compress(job, s, s', i, code, bytes);
      CompressInv(job, s, s', i, code, bytes);
    } else {
      var upto: nat :| Copy(s, s', i, upto);
      CopyInv(job, s, s', i, upto);
    }
  }

  lemma {:induction false} InvSizes(job: Job, s: State)
    requires Inv(job, s)
    ensures job.l.blockSize > 0 && Base(job) <= s.out < 0x8000_0000 && (s.log != [] ==> s.out <= job.maxbytes) && 16 <= job.maxbytes <= |s.dest|
  {
  }

  /** A run: any interleaving of steps from an initial state. */
  ghost predicate Run(job: Job, run: seq<State>)
    requires job.l.blockSize > 0
  {
    && run != [] && Initial(job, run[0])
    && forall k :: 0 <= k < |run| - 1 ==> Next(job, run[k], run[k + 1])
  }

  /** A run without its last step. */
  lemma {:induction false} RunBefore(job: Job, run: seq<State>)
    requires job.l.blockSize > 0 && Run(job, run) && |run| > 1
    ensures Run(job, run[..|run| - 1]) && Next(job, run[|run| - 2], run[|run| - 1])
  {
    hide Initial, Next;
    var before := run[..|run| - 1];
    forall k | 0 <= k < |before| - 1
      ensures Next(job, before[k], before[k + 1])
    {
      assert Next(job, run[k], run[k + 1]);
    }
    assert Next(job, run[|run| - 2], run[|run| - 2 + 1]);
  }

  lemma {:induction false} RunInv(job: Job, run: seq<State>)
    requires job.l.blockSize > 0 && Run(job, run)
    ensures Inv(job, run[|run| - 1])
    decreases |run|
  {
    hide Inv, Initial, Next;
    if |run| == 1 {
      InitialInv(job, run[0]);
    } else {
      RunBefore(job, run);
      RunInv(job, run[..|run| - 1]);
      StepInv(job, run[|run| - 2], run[|run| - 1]);
    }
  }

  // ----- the end of the destination -----

  /** Every claim is an idle worker's first one or comes with a place in the log. */
  ghost predicate ClaimsCounted(s: State) {
    |s.fates| + Count(s.workers, Idle) == |s.workers| + |s.log|
  }

  lemma {:induction false} StepCounted(job: Job, s: State, s': State)
    requires job.l.blockSize > 0 && ClaimsCounted(s) && Next(job, s, s')
    ensures ClaimsCounted(s') && |s'.workers| == |s.workers|
  {
    hide Blocks, Delivers, Full, IndexInside, Overwrite, Le32Bytes;
    var i: nat :| StepOf(job, s, s', i);
    CountUpdate(s.workers, i, s'.workers[i], Idle);
    if Pass(job, s, s', i) || exists upto: nat :: Copy(s, s', i, upto) {
      assert s'.workers == s.workers;
    } else {
      assert s'.workers == s.workers[i := s'.workers[i]];
    }
  }

  lemma {:induction false} RunCounted(job: Job, run: seq<State>)
    requires job.l.blockSize > 0 && Run(job, run)
    ensures ClaimsCounted(run[|run| - 1]) && |run[|run| - 1].workers| == |run[0].workers|
    decreases |run|
  {
    hide Next, ClaimsCounted;
    if |run| == 1 {
      FirstCounted(job, run[0]);
    } else {
      RunBefore(job, run);
      RunCounted(job, run[..|run| - 1]);
      StepCounted(job, run[|run| - 2], run[|run| - 1]);
    }
  }

  lemma {:induction false} FirstCounted(job: Job, s: State)
    requires Initial(job, s)
    ensures ClaimsCounted(s)
  {
    CountAll(s.workers, Idle);
  }

  /** What a worker in the critical section finds: the end of the destination is passed exactly when the start
      of its block lies behind it or the 32-bit sum wraps, and then by all that the sum exceeds it. */
  lemma {:induction false} PassesExactly(job: Job, s: State, i: nat)
    requires Inv(job, s) && i < |s.workers| && s.workers[i].Checked? && s.workers[i].code >= 0
    ensures (exists s' :: Pass(job, s, s', i)) <==>
      !IndexInside(job, s, i) || (s.workers[i].bytes != [] && s.out + |s.workers[i].bytes| > INT_MAX)
    ensures (exists s' :: Pass(job, s, s', i)) <==> !(exists s' :: Refuse(job, s, s', i) || Place(job, s, s', i))
  {
    hide FatesOk, MemoryOk, BlockOk, Exceeds, BlockCount, Overwrite, Le32Bytes;
    assert CarriesOk(job, s.workers[i]);
    var w := s.workers[i];
    InCriticalSection(job, s, i);
    SpaceTest(s.out, |w.bytes|, job.maxbytes);
    if !IndexInside(job, s, i) || (!Full(job, s, i) && s.out + |w.bytes| > job.maxbytes) {
      assert Pass(job, s, s.(overrun := true), i);
    } else if Full(job, s, i) {
      assert Refuse(job, s, s.(workers := s.workers[i := Done], giveup := 0, fates := s.fates[w.block := Dropped],
                               dest := Overwrite(s.dest, 16 + 4 * w.block, Le32Bytes(s.out))), i);
    } else {
      assert Place(job, s, s.(workers := s.workers[i := Copying(|s.log|, |s.fates|)], fates := s.fates[w.block := Logged(|s.log|)] + [Held(i)],
                              dest := Overwrite(s.dest, 16 + 4 * w.block, Le32Bytes(s.out)),
                              log := s.log + [Entry(w.block, s.out, w.bytes, i, 0)], out := s.out + |w.bytes|), i);
    }
  }

  lemma {:induction false} InCriticalSection(job: Job, s: State, i: nat)
    requires Inv(job, s) && i < |s.workers| && s.workers[i].Checked? && s.workers[i].code >= 0
    ensures s.workers[i].block < |s.fates| && s.workers[i].block < Blocks(job) && |s.workers[i].bytes| <= Private(job.l)
  {
    hide MemoryOk, BlockOk, BlockCount;
    assert HolderOk(s, i) && CarriesOk(job, s.workers[i]);
  }

  /** The destination takes the index, or at least the starts that can be stored before anything is placed; and
      adding one more private buffer to a full destination stays below 2^31. */
  ghost predicate RoomFits(job: Job, workers: nat)
    requires job.l.blockSize > 0
  {
    (Base(job) <= job.maxbytes || 16 + 4 * workers <= job.maxbytes) && job.maxbytes + Private(job.l) <= INT_MAX
  }

  /** Then no run ever passes the end of the destination. */
  lemma {:induction false} NeverPasses(job: Job, run: seq<State>)
    requires job.l.blockSize > 0 && Run(job, run) && RoomFits(job, |run[0].workers|)
    ensures !run[|run| - 1].overrun
    decreases |run|
  {
    hide Inv, Next, Blocks;
    if |run| > 1 {
      RunBefore(job, run);
      NeverPasses(job, run[..|run| - 1]);
      RunInv(job, run[..|run| - 1]);
      RunCounted(job, run[..|run| - 1]);
      NoPass(job, run[|run| - 2], run[|run| - 1]);
    }
  }

  lemma {:induction false} NoPass(job: Job, s: State, s': State)
    requires Inv(job, s) && ClaimsCounted(s) && !s.overrun && Next(job, s, s') && RoomFits(job, |s.workers|)
    ensures !s'.overrun
  {
    hide Inv, BlockCount, Delivers, Full, IndexInside, Overwrite, Le32Bytes, Private;
    InvSizes(job, s);
    var i: nat :| StepOf(job, s, s', i);
    if Pass(job, s, s', i) {
      NotPassed(job, s, s', i);
    }
  }

  lemma {:induction false} NotPassed(job: Job, s: State, s': State, i: nat)
    requires Inv(job, s) && ClaimsCounted(s) && RoomFits(job, |s.workers|)
    ensures !Pass(job, s, s', i)
  {
    hide Inv, BlockCount, Delivers, Exceeds, Count;
    if Pass(job, s, s', i) {
      InvSizes(job, s);
      Sized(job, s);
      InCriticalSection(job, s, i);
      SpaceTest(s.out, |s.workers[i].bytes|, job.maxbytes);
      NothingPlaced(job, s);
      ChunkWriter.IndexFits(|job.src|, job.l.blockSize);
    }
  }

  lemma {:induction false} Sized(job: Job, s: State)
    requires Inv(job, s)
    ensures WellSized(job)
  {
    hide FatesOk, MemoryOk, WorkersOk;
  }

  lemma {:induction false} NothingPlaced(job: Job, s: State)
    requires Inv(job, s)
    ensures s.log == [] ==> s.out == Base(job)
  {
    hide FatesOk, WorkersOk, EntryOk, BlockCount;
  }

  /** The places of raw blocks of equal length add up. */
  lemma {:induction false} TilesEven(log: seq<Entry>, base: nat, out: nat, len: nat)
    requires Tiles(log, base, out) && forall k :: 0 <= k < |log| ==> |log[k].bytes| == len
    ensures out == base + BlockStart(|log|, len)
    decreases |log|
  {
    hide BlockStart;
    NextStart(0, len);
    if log != [] {
      var n := |log| - 1;
      TilesEven(log[..n], base, log[n].at, len);
      NextStart(n, len);
    }
  }

  /** The buffer of 2147483631 bytes with 16 bytes to spare, in blocks of 128 KB that all come out raw: when
      16382 of them have been placed, the next one passes the end of the destination, by 13 bytes. */
  lemma {:induction false} TopBufferPasses(job: Job, s: State, i: nat)
    requires Inv(job, s) && |job.src| == MAX_BUFFERSIZE && job.l.blockSize == 131072 && job.maxbytes == INT_MAX
    requires |s.log| == 16382 && forall k :: 0 <= k < |s.log| ==> |s.log[k].bytes| == 131076
    requires i < |s.workers| && s.workers[i].Checked? && s.workers[i].code >= 0 && |s.workers[i].bytes| == 131076
    ensures exists s' :: Pass(job, s, s', i)
    ensures s.out + |s.workers[i].bytes| == job.maxbytes + 13 && !RoomFits(job, |s.workers|)
  {
    hide FatesOk, WorkersOk, EntryOk, BlockCount, Pass, Full, IndexInside;
    ChunkWriter.TopLayout();
    TilesEven(s.log, Base(job), s.out, 131076);
    PassesExactly(job, s, i);
  }

  /** That buffer, compressed with BloscLZ as one thread would. */
  ghost predicate TopJob(job: Job) {
    job.src == ChunkWriter.TopBuffer() && job.l == Layout(0, NoFilter, 1, false, 131072) && job.maxbytes == INT_MAX
  }

  /** A block of it, stored raw. */
  function RawForm(job: Job, b: nat): seq<byte>
    requires job.l.blockSize > 0 && b < Blocks(job)
  {
    Le32Bytes(131072) + Block(job.src, job.l.blockSize, b)
  }

  lemma {:induction false} RawDelivered(job: Job, b: nat)
    requires TopJob(job) && b < 16383
    ensures b < Blocks(job) && |RawForm(job, b)| == 131076 && Delivers(job, b, RawForm(job, b))
  {
    hide ChunkWriter.TopBuffer, Le32Bytes, BlockCount, SplitsOk;
    ChunkWriter.TopLayout();
    ChunkWriter.TopBlock(b);
    var block := Block(job.src, 131072, b);
    OneSplitOk(job.libs, 0, block, block);
    ChunkWriter.OneSplit(|block|);
    assert Filtered(NoFilter, 1, block, block);
  }

  /** One step more. */
  lemma {:induction false} Longer(job: Job, run: seq<State>, s: State, i: nat) returns (longer: seq<State>)
    requires job.l.blockSize > 0 && Run(job, run) && StepOf(job, run[|run| - 1], s, i)
    ensures longer == run + [s] && Run(job, longer)
  {
    hide Initial, Next;
    StepIsNext(job, run[|run| - 1], s, i);
    longer := run + [s];
    forall k | 0 <= k < |longer| - 1
      ensures Next(job, longer[k], longer[k + 1])
    {
      if k < |run| - 1 {
        assert Next(job, run[k], run[k + 1]);
      }
    }
  }

  /** Worker 0 has placed the first `k` blocks and claimed the next one; the others have yet to begin. */
  ghost predicate Placed(job: Job, s: State, k: nat)
    requires job.l.blockSize > 0
  {
    && s.workers != [] && s.workers[0] == Claimed(k) && |s.fates| == k + 1 && |s.log| == k && !s.overrun && s.giveup > 0
    && s.out == Base(job) + BlockStart(k, 131076) && job.maxbytes <= |s.dest|
  }

  lemma {:induction false} RoomForMore(job: Job, k: nat)
    requires TopJob(job) && k <= 16382
    ensures Base(job) == 65552 && Base(job) + BlockStart(k, 131076) == 65552 + 131076 * k
    ensures Blocks(job) == 16384
  {
    hide ChunkWriter.TopBuffer, BlockCount;
    ChunkWriter.TopLayout();
  }

  /** It compresses its block, and checks. */
  lemma {:induction false} GetsReady(job: Job, run: seq<State>, k: nat) returns (longer: seq<State>)
    requires TopJob(job) && k <= 16382 && Run(job, run) && Placed(job, run[|run| - 1], k)
    ensures Run(job, longer) && longer[0] == run[0] && k < Blocks(job)
    ensures var s := run[|run| - 1]; longer[|longer| - 1] == s.(workers := s.workers[0 := Checked(k, 0, RawForm(job, k))])
  {
    hide Initial, Next, Delivers, ChunkWriter.TopBuffer, RawForm, BlockCount, BlockStart, Overwrite, Le32Bytes;
    RawDelivered(job, k);
    var s, bytes := run[|run| - 1], RawForm(job, k);
    var s1 := s.(workers := s.workers[0 := Compressed(k, 0, bytes)]);
    assert Compress(job, s, s1, 0, 0, bytes);
    longer := Longer(job, run, s1, 0);
    var s2 := s1.(workers := s1.workers[0 := Checked(k, 0, bytes)]);
    assert Check(s1, s2, 0);
    longer := Longer(job, longer, s2, 0);
  }

  /** It takes its place. */
  lemma {:induction false} TakesPlace(job: Job, run: seq<State>, k: nat) returns (longer: seq<State>)
    requires TopJob(job) && k < 16382 && Run(job, run) && Placed(job, run[|run| - 1], k)
    ensures Run(job, longer) && longer[0] == run[0] && k < Blocks(job) && |RawForm(job, k)| == 131076
    ensures var s, s' := run[|run| - 1], longer[|longer| - 1];
      && s'.workers == s.workers[0 := Copying(k, k + 1)] && |s'.fates| == k + 2 && !s'.overrun && s'.giveup > 0 && |s'.dest| == |s.dest|
      && s'.log == s.log + [Entry(k, s.out, RawForm(job, k), 0, 0)] && s'.out == s.out + 131076
  {
    hide Initial, Next, Delivers, ChunkWriter.TopBuffer, RawForm, BlockCount, BlockStart, Overwrite, Le32Bytes, Exceeds;
    longer := GetsReady(job, run, k);
    RoomForMore(job, k);
    RawDelivered(job, k);
    var s, bytes := longer[|longer| - 1], RawForm(job, k);
    SpaceTest(s.out, |bytes|, job.maxbytes);
    var s1 := s.(workers := s.workers[0 := Copying(k, k + 1)], fates := s.fates[k := Logged(k)] + [Held(0)],
                 dest := Overwrite(s.dest, 16 + 4 * k, Le32Bytes(s.out)), log := s.log + [Entry(k, s.out, bytes, 0, 0)], out := s.out + |bytes|);
    assert Place(job, s, s1, 0);
    longer := Longer(job, longer, s1, 0);
  }

  /** It copies and goes on. */
  lemma {:induction false} PlacesOne(job: Job, run: seq<State>, k: nat) returns (longer: seq<State>)
    requires TopJob(job) && k < 16382 && Run(job, run) && Placed(job, run[|run| - 1], k)
    ensures Run(job, longer) && longer[0] == run[0] && Placed(job, longer[|longer| - 1], k + 1)
  {
    hide Initial, Next, ChunkWriter.TopBuffer, RawForm, BlockCount, BlockStart, Overwrite;
    longer := TakesPlace(job, run, k);
    RoomForMore(job, k);
    RoomForMore(job, k + 1);
    var s := longer[|longer| - 1];
    var e := s.log[k];
    var s1 := s.(dest := Overwrite(s.dest, e.at + 0, e.bytes[0..|e.bytes|]), log := s.log[k := e.(copied := |e.bytes|)]);
    assert Copy(s, s1, 0, |e.bytes|);
    longer := Longer(job, longer, s1, 0);
    var s2 := s1.(workers := s1.workers[0 := Claimed(k + 1)]);
    assert Resume(s1, s2, 0);
    longer := Longer(job, longer, s2, 0);
  }

  lemma {:induction false} PlacesMany(job: Job, s0: State, k: nat) returns (run: seq<State>)
    requires TopJob(job) && Initial(job, s0) && k <= 16382
    ensures Run(job, run) && run[0] == s0 && Placed(job, run[|run| - 1], k)
  {
    hide Delivers, ChunkWriter.TopBuffer, BlockCount, Next, BlockStart, Placed;
    if k == 0 {
      run := [s0];
      var s := s0.(workers := s0.workers[0 := Claimed(0)], fates := [Held(0)]);
      assert Claim(s0, s, 0);
      run := Longer(job, run, s, 0);
      FirstPlaced(job, s0, s);
    } else {
      run := PlacesMany(job, s0, k - 1);
      run := PlacesOne(job, run, k - 1);
    }
  }

  lemma {:induction false} FirstPlaced(job: Job, s0: State, s: State)
    requires TopJob(job) && Initial(job, s0) && s == s0.(workers := s0.workers[0 := Claimed(0)], fates := [Held(0)])
    ensures Placed(job, s, 0)
  {
    hide BlockCount, ChunkWriter.TopBuffer;
    NextStart(0, 131076);
  }

  /** From every initial state there is a run in which a worker passes the end of the destination, by 13 bytes. */
  lemma {:induction false} TopBufferRun(job: Job, s0: State) returns (run: seq<State>)
    requires TopJob(job) && Initial(job, s0)
    ensures Run(job, run) && run[0] == s0 && |run| > 1 && run[|run| - 1].overrun
    ensures Pass(job, run[|run| - 2], run[|run| - 1], 0)
    ensures var s := run[|run| - 2]; s.workers[0].Checked? && s.out + |s.workers[0].bytes| == job.maxbytes + 13
  {
    hide Initial, Delivers, ChunkWriter.TopBuffer, RawForm, BlockCount, BlockStart, Exceeds;
    run := PlacesMany(job, s0, 16382);
    RoomForMore(job, 16382);
    RawDelivered(job, 16382);
    run := GetsReady(job, run, 16382);
    var s := run[|run| - 1];
    SpaceTest(s.out, 131076, job.maxbytes);
    assert Pass(job, s, s.(overrun := true), 0);
    run := Longer(job, run, s.(overrun := true), 0);
  }

  // ----- the end of the job -----

  ghost predicate AllDone(s: State) {
    forall i :: 0 <= i < |s.workers| ==> s.workers[i] == Done
  }

  /** Block `b` has one entry and only one. */
  ghost predicate PlacedOnce(s: State, b: nat) {
    exists k :: 0 <= k < |s.log| && s.log[k].block == b && forall m :: 0 <= m < |s.log| && s.log[m].block == b ==> m == k
  }

  lemma {:induction false} EveryBlockPlaced(job: Job, s: State, b: nat)
    requires Inv(job, s) && AllDone(s) && s.giveup > 0 && b < Blocks(job)
    ensures b < |s.fates| && s.fates[b].Logged? && s.fates[b].entry < |s.log| && s.log[s.fates[b].entry].block == b && PlacedOnce(s, b)
  {
    hide Blocks, MemoryOk, Delivers;
    assert s.workers[0] == Done;
    assert FateOk(job, s, b);
    var k := s.fates[b].entry;
    assert s.log[k].block == b;
  }

  /** An entry's region holds the encoded block its index word points to. */
  lemma {:induction false} EntryHeld(job: Job, s: State, k: nat)
    requires Inv(job, s) && AllDone(s) && k < |s.log|
    ensures s.log[k].block < Blocks(job) && s.out >= Base(job) + 4
    ensures HoldsBlock(job.libs, job.l, s.dest[..s.out], job.src, s.log[k].block)
  {
    hide BlockOk, Block, BlockCount, IsLeftover, Start;
    assert EntryOk(job, s, k);
    var e := s.log[k];
    var chunk := s.dest[..s.out];
    var block, left := Block(job.src, job.l.blockSize, e.block), IsLeftover(|job.src|, job.l.blockSize, e.block);
    assert e.bytes[..e.copied] == e.bytes;
    assert chunk[e.at..e.at + |e.bytes|] == s.dest[e.at..e.at + e.copied] == e.bytes;
    BlockLength(job.libs, job.l, e.bytes, block, left);
    StartPrefix(s.dest, s.out, e.block);
    assert BlockIn(job.libs, job.l, chunk, e.at, |e.bytes|, block, left);
  }

  lemma {:induction false} StartPrefix(dest: seq<byte>, out: nat, block: nat)
    requires 16 + 4 * block + 4 <= out <= |dest|
    ensures Start(dest[..out], block) == Start(dest, block)
  {
  }

  lemma {:induction false} BlockLength(libs: Libraries, l: Layout, b: seq<byte>, block: seq<byte>, leftover: bool)
    requires BlockOk(libs, l, b, block, leftover)
    ensures |b| >= 4
  {
    hide Filtered, SplitOk, Le32;
    var k := Splits(l, |block|, leftover);
    var data :| |data| == |block| && Filtered(l.filter, l.typeSize, data, block) && SplitsOk(libs, l.format, b, data, |block| / k, k);
  }

  /** No worker has a step to take. */
  ghost predicate Stopped(job: Job, s: State)
    requires job.l.blockSize > 0
  {
    forall s': State :: !Next(job, s, s')
  }

  /** Unless the end of the destination has been passed, somebody can go on until all are done. */
  lemma {:induction false} Progresses(job: Job, s: State)
    requires Inv(job, s) && !s.overrun && !AllDone(s)
    ensures job.l.blockSize > 0 && exists s': State :: Next(job, s, s')
  {
    hide Inv, Next;
    InvSizes(job, s);
    var i :| 0 <= i < |s.workers| && s.workers[i] != Done;
    var s' := Moves(job, s, i);
    StepIsNext(job, s, s', i);
  }

  lemma {:induction false} StoppedIsDone(job: Job, s: State)
    requires Inv(job, s) && !s.overrun && Stopped(job, s)
    ensures AllDone(s)
  {
    hide Inv, Next;
    if !AllDone(s) {
      Progresses(job, s);
    }
  }

  lemma {:induction false} StepIsNext(job: Job, s: State, s': State, i: nat)
    requires job.l.blockSize > 0 && StepOf(job, s, s', i)
    ensures Next(job, s, s')
  {
    hide StepOf;
  }

  /** A worker that is not done has a step to take. */
  lemma {:induction false} Moves(job: Job, s: State, i: nat) returns (s': State)
    requires Inv(job, s) && !s.overrun && i < |s.workers| && s.workers[i] != Done
    ensures StepOf(job, s, s', i)
  {
    hide BlockCount, Delivers, Full, IndexInside, Overwrite, Le32Bytes, StartIs, PieceIs, Tiles;
    assert HolderOk(s, i) && CarriesOk(job, s.workers[i]);
    match s.workers[i] {
      case Idle =>
        s' := s.(workers := s.workers[i := Claimed(|s.fates|)], fates := s.fates + [Held(i)]);
        assert Claim(s, s', i);
      case Claimed(b) =>
        if b >= Blocks(job) || s.giveup <= 0 {
          s' := s.(workers := s.workers[i := Done], fates := s.fates[b := Dropped]);
          assert Leave(job, s, s', i);
        } else {
          s' := s.(workers := s.workers[i := Compressed(b, -1, [])]);
          assert Compress(job, s, s', i, -1, []);
        }
      case Compressed(b, code, bytes) =>
        if s.giveup <= 0 {
          s' := s.(workers := s.workers[i := Done], fates := s.fates[b := Dropped]);
          assert Notice(s, s', i);
        } else {
          s' := s.(workers := s.workers[i := Checked(b, code, bytes)]);
          assert Check(s, s', i);
        }
      case Checked(b, code, bytes) =>
        if code < 0 {
          s' := s.(workers := s.workers[i := Done], giveup := code, fates := s.fates[b := Dropped]);
          assert Fail(s, s', i);
        } else {
          PassesExactly(job, s, i);
          s' :| Pass(job, s, s', i) || Refuse(job, s, s', i) || Place(job, s, s', i);
        }
      case Copying(e, next) =>
        s' := CopyMoves(job, s, i);
      case Done =>
    }
  }

  lemma {:induction false} CopyMoves(job: Job, s: State, i: nat) returns (s': State)
    requires Inv(job, s) && !s.overrun && i < |s.workers| && s.workers[i].Copying?
    ensures StepOf(job, s, s', i)
  {
    hide BlockCount, Delivers, Overwrite, StartIs, Tiles, FatesOk, WorkersOk;
    var k := s.workers[i].entry;
    assert EntryOk(job, s, k);
    var e := s.log[k];
    if e.copied < |e.bytes| {
      s' := s.(dest := Overwrite(s.dest, e.at + e.copied, e.bytes[e.copied..|e.bytes|]), log := s.log[k := e.(copied := |e.bytes|)]);
      assert Copy(s, s', i, |e.bytes|);
    } else {
      s' := s.(workers := s.workers[i := Claimed(s.workers[i].next)]);
      assert Resume(s, s', i);
    }
  }

  /** When the end of the destination has been passed, the worker that did it is not done. */
  lemma {:induction false} PasserStands(job: Job, run: seq<State>)
    requires job.l.blockSize > 0 && Run(job, run) && run[|run| - 1].overrun
    ensures !AllDone(run[|run| - 1])
  {
    hide Blocks, Delivers, Full, IndexInside, Overwrite, Le32Bytes, Initial;
    FirstStands(job, run);
    RunBefore(job, run);
    var s, s' := run[|run| - 2], run[|run| - 1];
    var i: nat :| StepOf(job, s, s', i);
    assert Pass(job, s, s', i);
    assert s'.workers[i].Checked?;
  }

  lemma {:induction false} FirstStands(job: Job, run: seq<State>)
    requires job.l.blockSize > 0 && Run(job, run) && run[|run| - 1].overrun
    ensures |run| > 1
  {
    hide Next;
  }

  /** Whatever the interleaving: when all workers have left and nobody gave up, every block was placed exactly
      once, the places tile the output from behind the index up to the output counter, and the output holds the
      buffer; the end of the destination has not been passed. */
  lemma {:induction false} RaceIsHarmless(job: Job, run: seq<State>)
    requires job.l.blockSize > 0 && Run(job, run) && Blocks(job) > 0
    requires AllDone(run[|run| - 1]) && run[|run| - 1].giveup > 0
    ensures var s := run[|run| - 1];
      && (forall b: nat :: b < Blocks(job) ==> PlacedOnce(s, b))
      && Tiles(s.log, Base(job), s.out) && s.out <= job.maxbytes <= |s.dest| && !s.overrun
      && HoldsBlocks(job.libs, job.l, s.dest[..s.out], job.src)
  {
    hide BlockCount, HoldsBlock, FatesOk, WorkersOk, Initial, Next;
    RunInv(job, run);
    var s := run[|run| - 1];
    if s.overrun {
      PasserStands(job, run);
    }
    forall b: nat | b < Blocks(job)
      ensures PlacedOnce(s, b) && HoldsBlock(job.libs, job.l, s.dest[..s.out], job.src, b)
    {
      EveryBlockPlaced(job, s, b);
      EntryHeld(job, s, s.fates[b].entry);
    }
    EveryBlockPlaced(job, s, 0);
    EntryHeld(job, s, s.fates[0].entry);
  }

  /** No two places overlap. */
  lemma {:induction false} PlacesApart(job: Job, s: State, j: nat, k: nat)
    requires Inv(job, s) && j < |s.log| && k < |s.log| && j != k
    ensures s.log[j].at + |s.log[j].bytes| <= s.log[k].at || s.log[k].at + |s.log[k].bytes| <= s.log[j].at
    ensures s.log[j].block != s.log[k].block
  {
    hide WorkersOk, EntryOk;
    if j < k {
      TilesOrdered(s.log, Base(job), s.out, j, k);
    } else {
      TilesOrdered(s.log, Base(job), s.out, k, j);
    }
    assert s.fates[s.log[j].block] == Logged(j) && s.fates[s.log[k].block] == Logged(k);
  }

  // ----- the header stays, and the chunk can be read -----

  lemma {:induction false} StepKeepsHeader(job: Job, s: State, s': State)
    requires Inv(job, s) && Next(job, s, s')
    ensures |s'.dest| == |s.dest| && forall i :: 0 <= i < |s.dest| && (i < 16 || i >= job.maxbytes) ==> s'.dest[i] == s.dest[i]
  {
    hide FatesOk, WorkersOk, Tiles, Delivers, Le32Bytes, Claim, Leave, Notice, Check, Fail, Resume, Overwrite, BlockCount;
    var i: nat :| StepOf(job, s, s', i);
    StepStores(job, s, s', i);
  }

  /** Only three kinds of steps store, and all of them between the header and the end of the destination. */
  lemma {:induction false} StepStores(job: Job, s: State, s': State, i: nat)
    requires Inv(job, s) && StepOf(job, s, s', i)
    ensures s'.dest == s.dest || exists at: nat, piece: seq<byte> :: StoresAt(job, s, s', at, piece)
  {
    hide FatesOk, WorkersOk, Tiles, Delivers, Le32Bytes, Overwrite, BlockCount;
    if exists upto: nat :: Copy(s, s', i, upto) {
      var upto: nat :| Copy(s, s', i, upto);
      assert EntryOk(job, s, s.workers[i].entry);
      var e := s.log[s.workers[i].entry];
      assert StoresAt(job, s, s', e.at + e.copied, e.bytes[e.copied..upto]);
    } else if Refuse(job, s, s', i) || Place(job, s, s', i) {
      assert StoresAt(job, s, s', 16 + 4 * s.workers[i].block, Le32Bytes(s.out));
    }
  }

  ghost predicate StoresAt(job: Job, s: State, s': State, at: nat, piece: seq<byte>) {
    16 <= at && at + |piece| <= job.maxbytes <= |s.dest| && s'.dest == Overwrite(s.dest, at, piece)
  }

  lemma {:induction false} RunKeepsHeader(job: Job, run: seq<State>)
    requires job.l.blockSize > 0 && Run(job, run)
    ensures var s := run[|run| - 1];
      |s.dest| == |run[0].dest| >= 16 && s.dest[..16] == run[0].dest[..16] && SameFrom(s.dest, run[0].dest, job.maxbytes)
    decreases |run|
  {
    hide Inv, Next;
    if |run| > 1 {
      RunBefore(job, run);
      RunKeepsHeader(job, run[..|run| - 1]);
      RunInv(job, run[..|run| - 1]);
      StepKeepsHeader(job, run[|run| - 2], run[|run| - 1]);
    }
  }

  /** With the header written before the job and the compressed size stored after it, the output is a chunk that
      holds the buffer, and the readers give it back. */
  lemma {:induction false} ThreadedChunkHolds(job: Job, run: seq<State>)
    requires job.l.blockSize > 0 && Run(job, run) && Blocks(job) > 0
    requires AllDone(run[|run| - 1]) && run[|run| - 1].giveup > 0
    requires ChunkWriter.HeaderStart(run[0].dest, job.l, false, |job.src|)
    requires job.l.typeSize > 0 && job.l.blockSize <= MAX_BLOCKSIZE && job.l.blockSize <= |job.src| <= MAX_BUFFERSIZE
    ensures var s := run[|run| - 1];
      16 <= s.out <= |s.dest| && s.out <= INT_MAX && Holds(job.libs, job.l, false, Overwrite(s.dest, 12, Le32Bytes(s.out))[..s.out], job.src)
  {
    hide Blocks, HoldsBlocks, HoldsBlock, Le32Bytes, Initial, Next, AllDone, ChunkWriter.HeaderStart, Tiles, HeaderOk, BlockCount;
    RaceIsHarmless(job, run);
    RunKeepsHeader(job, run);
    RunInv(job, run);
    InvSizes(job, run[|run| - 1]);
    var s := run[|run| - 1];
    var out := Overwrite(s.dest, 12, Le32Bytes(s.out));
    ChunkWriter.HeaderKept(run[0].dest, s.dest, job.l, false, |job.src|);
    assert out[12..16] == Le32Bytes(s.out);
    ChunkWriter.HeaderDone(out, s.dest, job.l, false, |job.src|, s.out);
    ChunkWriter.BlocksKept(job.libs, job.l, out[..s.out], s.dest[..s.out], job.src);
  }
}
