// The workers of t_blosc when blocks are only copied or are decompressed: every worker handles a fixed
// share of the blocks, one after the other, and adds up the bytes it has stored. Any number of workers,
// any interleaving.

module Shares {
  import opened Bytes
  import opened Stores
  import opened Chunk
  import opened ChunkReader
  import opened Lz4Format

  /** Where the blocks come from: copied from plain bytes, or decoded from a chunk. */
  datatype Source = Plain(bytes: seq<byte>) | Encoded(libs: Libraries, l: Layout, chunk: seq<byte>)

  /** `n` bytes are to be put in place, in blocks, from `base` of the output on; `start` is what the byte counter
      begins with. */
  datatype Task = Task(source: Source, n: nat, blockSize: nat, base: nat, start: nat, threads: nat)

  ghost predicate WellFormed(t: Task) {
    && t.blockSize > 0 && t.threads > 0
    && match t.source
       case Plain(bytes) => |bytes| == t.n
       case Encoded(_, l, chunk) => l.blockSize == t.blockSize && 16 + 4 * BlockCount(t.n, t.blockSize) <= |chunk|
  }

  function Blocks(t: Task): nat
    requires WellFormed(t)
  {
    BlockCount(t.n, t.blockSize)
  }

  /** tblocks: the blocks per worker. */
  function PerWorker(t: Task): nat
    requires WellFormed(t)
  {
    BlockCount(Blocks(t), t.threads)
  }

  /** The first block of worker `i`. */
  function First(t: Task, i: nat): nat
    requires WellFormed(t)
  {
    BlockStart(i, PerWorker(t))
  }

  /** tblock: where the share of worker `i` ends. */
  function Limit(t: Task, i: nat): nat
    requires WellFormed(t)
  {
    if First(t, i) + PerWorker(t) > Blocks(t) then Blocks(t) else First(t, i) + PerWorker(t)
  }

  /** Worker `i` handles block `b`. */
  ghost predicate Handles(t: Task, i: nat, b: nat)
    requires WellFormed(t)
  {
    First(t, i) <= b < Limit(t, i)
  }

  /** Where block `b` begins, or the end. */
  function Pos(t: Task, b: nat): (p: nat)
    requires WellFormed(t)
    ensures p <= t.n
  {
    if b < Blocks(t) then
      BlocksFit(t.n, t.blockSize, b);
      BlockStart(b, t.blockSize)
    else t.n
  }

  // ----- the division of the blocks -----

  lemma {:induction false} NextPos(t: Task, b: nat)
    requires WellFormed(t)
    ensures Pos(t, 0) == 0 && Pos(t, b) <= Pos(t, b + 1)
    ensures b < Blocks(t) ==> Pos(t, b + 1) == Pos(t, b) + BlockSize(t.n, t.blockSize, b)
  {
    hide BlockCount, BlockStart;
    NextStart(0, t.blockSize);
    NoBlocks(t.n, t.blockSize);
    if b < Blocks(t) {
      Advance(t.n, t.blockSize, b);
    }
  }

  lemma {:induction false} PosGrow(t: Task, a: nat, b: nat)
    requires WellFormed(t) && a <= b
    ensures Pos(t, a) <= Pos(t, b)
    decreases b
  {
    hide Pos;
    if a < b {
      PosGrow(t, a, b - 1);
      NextPos(t, b - 1);
    }
  }

  /** The shares of all workers reach the end. */
  lemma {:induction false} SharesCover(n: nat, threads: nat)
    requires threads > 0
    ensures n <= BlockStart(threads, BlockCount(n, threads))
  {
    FullBlocks(n, threads);
    var q := n / threads;
    if n % threads > 0 {
      assert threads * (q + 1) == threads * q + threads;
    }
    assert threads * q == q * threads;
  }

  /** Every block has one worker and only one. */
  lemma {:induction false} OneWorkerEach(t: Task, b: nat) returns (i: nat)
    requires WellFormed(t) && b < Blocks(t)
    ensures i < t.threads && Handles(t, i, b)
    ensures forall k: nat :: Handles(t, k, b) ==> k == i
  {
    var n, tblocks := Blocks(t), PerWorker(t);
    NoBlocks(n, t.threads);
    SharesCover(n, t.threads);
    i := ShareOf(b, tblocks);
    if i >= t.threads {
      StartsGrow(t.threads, i, tblocks);
    }
    forall k: nat | Handles(t, k, b)
      ensures k == i
    {
      hide BlockCount, BlockStart;
      NextStart(k, tblocks);
      NextStart(i, tblocks);
      if k < i {
        StartsGrow(k + 1, i, tblocks);
      } else if i < k {
        StartsGrow(i + 1, k, tblocks);
      }
    }
  }

  lemma {:induction false} ShareOf(b: nat, tblocks: nat) returns (i: nat)
    requires tblocks > 0
    ensures BlockStart(i, tblocks) <= b < BlockStart(i, tblocks) + tblocks
  {
    i := b / tblocks;
    assert b == i * tblocks + b % tblocks;
  }

  /** What a worker can get for block `b`: a copy, or anything that reading the block can lead to. */
  ghost predicate May(t: Task, b: nat, r: Read)
    requires WellFormed(t) && b < Blocks(t)
  {
    match t.source
    case Plain(bytes) => r == Got(Block(bytes, t.blockSize, b))
    case Encoded(libs, l, chunk) => Delivers(libs, l, chunk, t.n, b, r)
  }

  // ----- the machine -----

  /** A worker before its loop; in it, in front of a block, with so many bytes counted; storing the bytes it got for a
      block; having added its count; or having left because somebody gave up. */
  datatype Worker = Waiting | At(block: nat, ntbytes: nat) | Storing(block: nat, ntbytes: nat, bytes: seq<byte>, done: nat) | Summed | Left

  /** Shared memory and counters, the workers, whether a decoder has stored outside of its block (then the model
      stops), and, as history, what has been got for every block. */
  datatype State = State(workers: seq<Worker>, giveup: int, total: nat, dest: seq<byte>, astray: bool, got: seq<Option<Read>>)

  ghost predicate Initial(t: Task, s: State) {
    && WellFormed(t) && |s.workers| == t.threads && (forall i :: 0 <= i < |s.workers| ==> s.workers[i] == Waiting)
    && s.giveup == 1 && s.total == t.start && t.base + t.n <= |s.dest| && !s.astray
    && |s.got| == Blocks(t) && forall b :: 0 <= b < |s.got| ==> s.got[b] == None
  }

  ghost predicate Begin(t: Task, s: State, s': State, i: nat)
    requires WellFormed(t)
  {
    i < |s.workers| && s.workers[i] == Waiting && s' == s.(workers := s.workers[i := At(First(t, i), 0)])
  }

  /** Worker `i` is in front of a block of its share. */
  ghost predicate Ready(t: Task, s: State, i: nat)
    requires WellFormed(t)
  {
    i < |s.workers| && s.workers[i].At? && s.workers[i].block < Limit(t, i) && s.workers[i].block < |s.got|
  }

  /** The block is read. */
  ghost predicate Fetch(t: Task, s: State, s': State, i: nat, bytes: seq<byte>)
    requires WellFormed(t)
  {
    && Ready(t, s, i) && s.giveup > 0 && May(t, s.workers[i].block, Got(bytes))
    && var w := s.workers[i];
    s' == s.(workers := s.workers[i := Storing(w.block, w.ntbytes, bytes, 0)], got := s.got[w.block := Some(Got(bytes))])
  }

  /** The block cannot be read: the code is published. */
  ghost predicate Fail(t: Task, s: State, s': State, i: nat, code: int)
    requires WellFormed(t)
  {
    && Ready(t, s, i) && s.giveup > 0 && code < 0 && May(t, s.workers[i].block, Failed(code))
    && s' == s.(workers := s.workers[i := Left], giveup := code, got := s.got[s.workers[i].block := Some(Failed(code))])
  }

  ghost predicate Stray(t: Task, s: State, s': State, i: nat)
    requires WellFormed(t)
  {
    Ready(t, s, i) && s.giveup > 0 && May(t, s.workers[i].block, Strayed) && s' == s.(astray := true)
  }

  /** Some more bytes of the block reach the output. */
  ghost predicate Store(t: Task, s: State, s': State, i: nat, upto: nat)
    requires WellFormed(t)
  {
    && i < |s.workers| && s.workers[i].Storing?
    && var w := s.workers[i];
    && w.done < upto <= |w.bytes| && t.base + Pos(t, w.block) + upto <= |s.dest|
    && s' == s.(workers := s.workers[i := w.(done := upto)],
                dest := Overwrite(s.dest, t.base + Pos(t, w.block) + w.done, w.bytes[w.done..upto]))
  }

  ghost predicate GoOn(t: Task, s: State, s': State, i: nat)
    requires WellFormed(t)
  {
    && i < |s.workers| && s.workers[i].Storing? && s.giveup > 0
    && var w := s.workers[i];
    && w.done == |w.bytes| && s' == s.(workers := s.workers[i := At(w.block + 1, w.ntbytes + |w.bytes|)])
  }

  /** No block left: the bytes are added, under the mutex. */
  ghost predicate Sum(t: Task, s: State, s': State, i: nat)
    requires WellFormed(t)
  {
    && i < |s.workers| && s.workers[i].At? && s.workers[i].block >= Limit(t, i) && s.giveup > 0
    && s' == s.(workers := s.workers[i := Summed], total := s.total + s.workers[i].ntbytes)
  }

  /** Somebody has given up, which is looked at in front of a block and behind it. */
  ghost predicate Quit(s: State, s': State, i: nat) {
    && i < |s.workers| && s.giveup <= 0
    && (s.workers[i].At? || (s.workers[i].Storing? && s.workers[i].done == |s.workers[i].bytes|))
    && s' == s.(workers := s.workers[i := Left])
  }

  ghost predicate StepOf(t: Task, s: State, s': State, i: nat)
    requires WellFormed(t)
  {
    && !s.astray
    && (|| Begin(t, s, s', i) || Stray(t, s, s', i) || GoOn(t, s, s', i) || Sum(t, s, s', i) || Quit(s, s', i)
        || (exists bytes: seq<byte> :: Fetch(t, s, s', i, bytes)) || (exists code: int :: Fail(t, s, s', i, code))
        || (exists upto: nat :: Store(t, s, s', i, upto)))
  }

  ghost predicate Next(t: Task, s: State, s': State)
    requires WellFormed(t)
  {
    exists i: nat :: StepOf(t, s, s', i)
  }

  // ----- the invariant -----

  /** The first `k` of the bytes of block `b` are in place. */
  ghost predicate Stored(t: Task, dest: seq<byte>, b: nat, bytes: seq<byte>, k: nat)
    requires WellFormed(t)
  {
    var at := t.base + Pos(t, b);
    && k <= |bytes| && at + k <= |dest| && forall q :: at <= q < at + k ==> dest[q] == bytes[q - at]
  }

  /** A block has been got and stored. */
  ghost predicate InPlace(t: Task, s: State, b: nat)
    requires WellFormed(t)
  {
    b < |s.got| && s.got[b].Some? && s.got[b].value.Got? && Stored(t, s.dest, b, s.got[b].value.bytes, |s.got[b].value.bytes|)
  }

  /** The bytes got for blocks `a` up to `b`. */
  ghost function Count(got: seq<Option<Read>>, a: nat, b: nat): nat
    decreases b
  {
    if b <= a then 0
    else Count(got, a, b - 1) + if b - 1 < |got| && got[b - 1].Some? && got[b - 1].value.Got? then |got[b - 1].value.bytes| else 0
  }

  /** The blocks of worker `i` before `b` are in place. */
  ghost predicate Behind(t: Task, s: State, i: nat, b: nat)
    requires WellFormed(t)
  {
    forall c: nat :: First(t, i) <= c < b ==> InPlace(t, s, c)
  }

  ghost predicate WorkerOk(t: Task, s: State, i: nat)
    requires WellFormed(t) && i < |s.workers|
  {
    match s.workers[i]
    case Waiting => true
    case At(b, ntbytes) =>
      First(t, i) <= b && (b == First(t, i) || b <= Limit(t, i)) && Behind(t, s, i, b) && ntbytes == Count(s.got, First(t, i), b)
    case Storing(b, ntbytes, bytes, done) =>
      && Handles(t, i, b) && b < |s.got| && s.got[b] == Some(Got(bytes)) && Stored(t, s.dest, b, bytes, done)
      && Behind(t, s, i, b) && ntbytes == Count(s.got, First(t, i), b)
    case Summed => Behind(t, s, i, Limit(t, i))
    case Left => s.giveup <= 0
  }

  ghost predicate GotOk(t: Task, s: State, b: nat)
    requires WellFormed(t) && b < Blocks(t) == |s.got|
  {
    s.got[b].Some? ==> May(t, b, s.got[b].value)
  }

  /** What the first `k` workers have added. */
  ghost function Added(t: Task, s: State, k: nat): nat
    requires WellFormed(t) && k <= |s.workers|
  {
    if k == 0 then 0
    else Added(t, s, k - 1) + if s.workers[k - 1].Summed? then Count(s.got, First(t, k - 1), Limit(t, k - 1)) else 0
  }

  ghost predicate FailedWith(t: Task, code: int)
    requires WellFormed(t)
  {
    exists b: nat :: b < Blocks(t) && May(t, b, Failed(code))
  }

  ghost predicate SomeStrays(t: Task)
    requires WellFormed(t)
  {
    exists b: nat :: b < Blocks(t) && May(t, b, Strayed)
  }

  /** Nothing but the output's part has changed since `was`. */
  ghost predicate OthersKept(t: Task, was: seq<byte>, dest: seq<byte>) {
    |dest| == |was| && forall q :: 0 <= q < |was| && !(t.base <= q < t.base + t.n) ==> dest[q] == was[q]
  }

  /** `was` is the output before the first step. */
  ghost predicate Inv(t: Task, was: seq<byte>, s: State) {
    && WellFormed(t) && |s.workers| == t.threads && |s.got| == Blocks(t) && t.base + t.n <= |s.dest| && OthersKept(t, was, s.dest)
    && (forall i :: 0 <= i < |s.workers| ==> WorkerOk(t, s, i))
    && (forall b :: 0 <= b < |s.got| ==> GotOk(t, s, b))
    && (s.giveup > 0 ==> s.total == t.start + Added(t, s, t.threads))
    && (s.giveup <= 0 ==> FailedWith(t, s.giveup)) && (s.astray ==> SomeStrays(t))
  }

  // ----- blocks and shares lie apart -----

  lemma {:induction false} BlocksApart(t: Task, a: nat, b: nat)
    requires WellFormed(t) && a < Blocks(t) && b < Blocks(t) && a != b
    ensures Pos(t, a) + BlockSize(t.n, t.blockSize, a) <= Pos(t, b) || Pos(t, b) + BlockSize(t.n, t.blockSize, b) <= Pos(t, a)
  {
    hide BlockCount, BlockSize, Pos;
    NextPos(t, a);
    NextPos(t, b);
    if a < b {
      PosGrow(t, a + 1, b);
    } else {
      PosGrow(t, b + 1, a);
    }
  }

  lemma {:induction false} SharesApart(t: Task, i: nat, k: nat, b: nat)
    requires WellFormed(t) && Handles(t, i, b) && Handles(t, k, b)
    ensures i == k && b < Blocks(t)
  {
    hide BlockCount, BlockStart;
    var j := OneWorkerEach(t, b);
  }

  /** What is got for a block is no longer than the block. */
  lemma {:induction false} GotShort(t: Task, b: nat, bytes: seq<byte>)
    requires WellFormed(t) && b < Blocks(t) && May(t, b, Got(bytes))
    ensures |bytes| <= BlockSize(t.n, t.blockSize, b) && Pos(t, b) + |bytes| <= t.n
  {
    hide BlockCount, BlockSize, Pos, Block;
    NextPos(t, b);
  }

  // ----- counts -----

  lemma {:induction false} CountSame(g: seq<Option<Read>>, h: seq<Option<Read>>, a: nat, b: nat)
    requires |g| == |h| && forall c :: a <= c < b && c < |g| ==> g[c] == h[c]
    ensures Count(g, a, b) == Count(h, a, b)
    decreases b
  {
    if b > a {
      CountSame(g, h, a, b - 1);
    }
  }

  lemma {:induction false} CountSplit(g: seq<Option<Read>>, a: nat, b: nat, c: nat)
    requires a <= b <= c
    ensures Count(g, a, c) == Count(g, a, b) + Count(g, b, c)
    decreases c
  {
    if c > b {
      CountSplit(g, a, b, c - 1);
    }
  }

  /** Where the share of worker `i` begins among the blocks, or their end. */
  function Edge(t: Task, i: nat): nat
    requires WellFormed(t)
  {
    if First(t, i) > Blocks(t) then Blocks(t) else First(t, i)
  }

  lemma {:induction false} EdgeNext(t: Task, i: nat)
    requires WellFormed(t)
    ensures Edge(t, 0) == 0 && Edge(t, t.threads) == Blocks(t) && Edge(t, i) <= Edge(t, i + 1)
    ensures First(t, i) <= Limit(t, i) ==> Edge(t, i) == First(t, i) && Edge(t, i + 1) == Limit(t, i)
    ensures First(t, i) > Limit(t, i) ==> Edge(t, i) == Edge(t, i + 1)
  {
    hide BlockCount, BlockStart;
    NextStart(i, PerWorker(t));
    NextStart(0, PerWorker(t));
    SharesCover(Blocks(t), t.threads);
  }

  /** When all workers have added theirs, everything is counted. */
  lemma {:induction false} AddedAll(t: Task, s: State, k: nat)
    requires WellFormed(t) && k <= |s.workers| && forall i :: 0 <= i < k ==> s.workers[i].Summed?
    ensures Added(t, s, k) == Count(s.got, 0, Edge(t, k))
  {
    hide Edge, First, Limit;
    EdgeNext(t, 0);
    if k > 0 {
      AddedAll(t, s, k - 1);
      EdgeNext(t, k - 1);
      CountSplit(s.got, 0, Edge(t, k - 1), Edge(t, k));
    }
  }

  lemma {:induction false} AddedNone(t: Task, s: State, k: nat)
    requires WellFormed(t) && k <= |s.workers| && forall i :: 0 <= i < k ==> !s.workers[i].Summed?
    ensures Added(t, s, k) == 0
  {
    if k > 0 {
      AddedNone(t, s, k - 1);
    }
  }

  /** Worker `i` moves on; what it gets lies in its own share, and only adding its count changes the sum. */
  lemma {:induction false} AddedMoves(t: Task, s: State, s': State, i: nat, k: nat)
    requires WellFormed(t) && k <= |s.workers| == |s'.workers| && i < |s.workers| && !s.workers[i].Summed?
    requires forall j :: 0 <= j < |s.workers| && j != i ==> s'.workers[j] == s.workers[j]
    requires |s.got| == |s'.got| && forall c: nat :: c < |s.got| && s.got[c] != s'.got[c] ==> Handles(t, i, c)
    ensures Added(t, s', k) == Added(t, s, k) + if i < k && s'.workers[i].Summed? then Count(s'.got, First(t, i), Limit(t, i)) else 0
  {
    hide First, Limit;
    if k > 0 {
      AddedMoves(t, s, s', i, k - 1);
      if k - 1 != i {
        forall c: nat | First(t, k - 1) <= c < Limit(t, k - 1) && c < |s.got|
          ensures s.got[c] == s'.got[c]
        {
          if s.got[c] != s'.got[c] {
            SharesApart(t, i, k - 1, c);
          }
        }
        CountSame(s.got, s'.got, First(t, k - 1), Limit(t, k - 1));
      }
    }
  }

  // ----- the steps keep the others in order -----

  /** A step of worker `i`: others stay where they are, and memory and history change in blocks of its share only. */
  ghost predicate OwnBlocks(t: Task, s: State, s': State, i: nat)
    requires WellFormed(t)
  {
    && i < |s.workers| == |s'.workers| && |s.got| == |s'.got| && |s.dest| == |s'.dest|
    && (forall j :: 0 <= j < |s.workers| && j != i ==> s'.workers[j] == s.workers[j])
    && (forall c: nat :: c < |s.got| && !Handles(t, i, c) ==> Untouched(t, s, s', c))
  }

  /** Block `c` has the same bytes and the same history. */
  ghost predicate Untouched(t: Task, s: State, s': State, c: nat)
    requires WellFormed(t) && |s.got| == |s'.got| && |s.dest| == |s'.dest| && c < |s.got|
  {
    && s'.got[c] == s.got[c]
    && forall bytes: seq<byte>, k: nat :: Stored(t, s.dest, c, bytes, k) && |bytes| <= BlockSize(t.n, t.blockSize, c) ==> Stored(t, s'.dest, c, bytes, k)
  }

  lemma {:induction false} BehindKept(t: Task, was: seq<byte>, s: State, s': State, i: nat, j: nat, b: nat)
    requires Inv(t, was, s) && OwnBlocks(t, s, s', i) && j < |s.workers| && j != i && Behind(t, s, j, b) && (b <= First(t, j) || b <= Limit(t, j))
    ensures Behind(t, s', j, b) && Count(s'.got, First(t, j), b) == Count(s.got, First(t, j), b)
  {
    hide Stored, First, Limit, BlockCount, BlockSize, May, Added, OthersKept, WorkerOk, InPlace, Untouched;
    forall c: nat | First(t, j) <= c < b
      ensures InPlace(t, s', c) && (c < |s.got| ==> s.got[c] == s'.got[c])
    {
      assert InPlace(t, s, c);
      OwnKept(t, was, s, s', i, j, c);
    }
    CountSame(s.got, s'.got, First(t, j), b);
  }

  lemma {:induction false} OwnKept(t: Task, was: seq<byte>, s: State, s': State, i: nat, j: nat, c: nat)
    requires Inv(t, was, s) && OwnBlocks(t, s, s', i) && Handles(t, j, c) && j != i
    ensures c < |s.got| && s'.got[c] == s.got[c] && (InPlace(t, s, c) ==> InPlace(t, s', c)) && Untouched(t, s, s', c)
  {
    hide Stored, First, BlockCount, BlockSize, May, Added, OthersKept, WorkerOk;
    NotOwn(t, i, j, c);
    assert GotOk(t, s, c);
    KeptInPlace(t, s, s', c);
  }

  lemma {:induction false} OthersOk(t: Task, was: seq<byte>, s: State, s': State, i: nat, j: nat)
    requires Inv(t, was, s) && OwnBlocks(t, s, s', i) && j < |s.workers| && j != i && (s.giveup <= 0 ==> s'.giveup <= 0)
    ensures WorkerOk(t, s', j)
  {
    hide Stored, First, Limit, BlockCount, BlockSize, May, Added, OthersKept, Behind, InPlace;
    assert WorkerOk(t, s, j) && s'.workers[j] == s.workers[j];
    match s.workers[j] {
      case Waiting =>
      case At(b, _) => BehindKept(t, was, s, s', i, j, b);
      case Storing(b, _, bytes, done) =>
        BehindKept(t, was, s, s', i, j, b);
        OwnKept(t, was, s, s', i, j, b);
        assert GotOk(t, s, b);
        GotShort(t, b, bytes);
      case Summed => BehindKept(t, was, s, s', i, j, Limit(t, j));
      case Left =>
    }
  }

  lemma {:induction false} NotOwn(t: Task, i: nat, j: nat, c: nat)
    requires WellFormed(t) && Handles(t, j, c) && i != j
    ensures !Handles(t, i, c)
  {
    if Handles(t, i, c) {
      SharesApart(t, i, j, c);
    }
  }

  lemma {:induction false} KeptInPlace(t: Task, s: State, s': State, c: nat)
    requires WellFormed(t) && |s.got| == |s'.got| == Blocks(t) && |s.dest| == |s'.dest| && c < |s.got| && GotOk(t, s, c) && Untouched(t, s, s', c)
    ensures InPlace(t, s, c) ==> InPlace(t, s', c)
  {
    hide Stored, May, BlockCount, BlockSize;
    if InPlace(t, s, c) {
      GotShort(t, c, s.got[c].value.bytes);
    }
  }

  /** What is left to show for a step of worker `i`. */
  lemma {:induction false} Moved(t: Task, was: seq<byte>, s: State, s': State, i: nat)
    requires Inv(t, was, s) && OwnBlocks(t, s, s', i) && !s.workers[i].Summed? && WorkerOk(t, s', i) && OthersKept(t, was, s'.dest)
    requires forall b :: 0 <= b < |s'.got| ==> GotOk(t, s', b)
    requires s'.astray == s.astray && (s'.giveup == s.giveup || (s'.giveup <= 0 && FailedWith(t, s'.giveup)))
    requires s'.total == s.total + if s'.workers[i].Summed? then Count(s'.got, First(t, i), Limit(t, i)) else 0
    ensures Inv(t, was, s')
  {
    hide WorkerOk, GotOk, FailedWith, OthersKept, Handles, First, Limit, BlockCount, Untouched;
    forall j | 0 <= j < |s'.workers|
      ensures WorkerOk(t, s', j)
    {
      if j != i {
        OthersOk(t, was, s, s', i, j);
      }
    }
    ChangedOwn(t, s, s', i);
    AddedMoves(t, s, s', i, t.threads);
  }

  lemma {:induction false} ChangedOwn(t: Task, s: State, s': State, i: nat)
    requires WellFormed(t) && OwnBlocks(t, s, s', i)
    ensures forall c: nat :: c < |s.got| && s.got[c] != s'.got[c] ==> Handles(t, i, c)
  {
    hide Handles;
    forall c: nat | c < |s.got| && !Handles(t, i, c)
      ensures s.got[c] == s'.got[c]
    {
      assert Untouched(t, s, s', c);
    }
  }

  /** Memory and history stay. */
  lemma {:induction false} NothingTouched(t: Task, s: State, s': State, i: nat, w: Worker)
    requires WellFormed(t) && i < |s.workers| && s'.workers == s.workers[i := w] && s'.got == s.got && s'.dest == s.dest
    ensures OwnBlocks(t, s, s', i)
  {
  }

  lemma {:induction false} SameGot(t: Task, s: State, s': State)
    requires WellFormed(t) && |s.got| == Blocks(t) && s'.got == s.got && forall b :: 0 <= b < |s.got| ==> GotOk(t, s, b)
    ensures forall b :: 0 <= b < |s'.got| ==> GotOk(t, s', b)
  {
    hide May;
    forall b | 0 <= b < |s'.got|
      ensures GotOk(t, s', b)
    {
      assert GotOk(t, s, b);
    }
  }

  lemma {:induction false} SameBehind(t: Task, s: State, s': State, i: nat, b: nat)
    requires WellFormed(t) && s'.got == s.got && s'.dest == s.dest && Behind(t, s, i, b)
    ensures Behind(t, s', i, b)
  {
    hide First, Stored;
    forall c: nat | First(t, i) <= c < b
      ensures InPlace(t, s', c)
    {
      assert InPlace(t, s, c);
    }
  }

  lemma {:induction false} BeginInv(t: Task, was: seq<byte>, s: State, s': State, i: nat)
    requires Inv(t, was, s) && Begin(t, s, s', i)
    ensures Inv(t, was, s')
  {
    hide First, Limit, BlockCount, GotOk, OthersKept, FailedWith, OwnBlocks;
    NothingTouched(t, s, s', i, s'.workers[i]);
    SameGot(t, s, s');
    Moved(t, was, s, s', i);
  }

  lemma {:induction false} QuitInv(t: Task, was: seq<byte>, s: State, s': State, i: nat)
    requires Inv(t, was, s) && Quit(s, s', i)
    ensures Inv(t, was, s')
  {
    hide First, Limit, BlockCount, GotOk, OthersKept, FailedWith, OwnBlocks;
    NothingTouched(t, s, s', i, s'.workers[i]);
    SameGot(t, s, s');
    Moved(t, was, s, s', i);
  }

  lemma {:induction false} SumInv(t: Task, was: seq<byte>, s: State, s': State, i: nat)
    requires Inv(t, was, s) && Sum(t, s, s', i)
    ensures Inv(t, was, s')
  {
    hide First, Limit, BlockCount, GotOk, OthersKept, FailedWith, OwnBlocks, InPlace;
    NothingTouched(t, s, s', i, s'.workers[i]);
    SameGot(t, s, s');
    assert WorkerOk(t, s, i);
    var b := s.workers[i].block;
    SameBehind(t, s, s', i, b);
    if b > Limit(t, i) {
      CountNone(s.got, First(t, i), b, Limit(t, i));
    }
    Moved(t, was, s, s', i);
  }

  lemma {:induction false} CountNone(g: seq<Option<Read>>, a: nat, b: nat, c: nat)
    requires b <= a && c <= a
    ensures Count(g, a, b) == Count(g, a, c) == 0
  {
  }

  lemma {:induction false} GoOnInv(t: Task, was: seq<byte>, s: State, s': State, i: nat)
    requires Inv(t, was, s) && GoOn(t, s, s', i)
    ensures Inv(t, was, s')
  {
    hide First, Limit, BlockCount, GotOk, OthersKept, FailedWith, OwnBlocks, Stored;
    NothingTouched(t, s, s', i, s'.workers[i]);
    SameGot(t, s, s');
    assert WorkerOk(t, s, i);
    var b := s.workers[i].block;
    SameBehind(t, s, s', i, b);
    assert InPlace(t, s', b);
    Moved(t, was, s, s', i);
  }

  lemma {:induction false} StrayInv(t: Task, was: seq<byte>, s: State, s': State, i: nat)
    requires Inv(t, was, s) && Stray(t, s, s', i)
    ensures Inv(t, was, s')
  {
    hide First, Limit, BlockCount, OthersKept, FailedWith, Stored, May, Behind, InPlace;
    forall j | 0 <= j < |s'.workers|
      ensures WorkerOk(t, s', j)
    {
      assert WorkerOk(t, s, j);
      StillOk(t, s, s', j);
    }
    SameGot(t, s, s');
    SameAdded(t, s, s', t.threads);
  }

  lemma {:induction false} StillOk(t: Task, s: State, s': State, j: nat)
    requires WellFormed(t) && j < |s.workers| && WorkerOk(t, s, j) && s' == s.(astray := true)
    ensures WorkerOk(t, s', j)
  {
    hide First, Limit, Stored;
    match s.workers[j] {
      case Waiting =>
      case At(b, _) => SameBehind(t, s, s', j, b);
      case Storing(b, _, _, _) => SameBehind(t, s, s', j, b);
      case Summed => SameBehind(t, s, s', j, Limit(t, j));
      case Left =>
    }
  }

  lemma {:induction false} SameAdded(t: Task, s: State, s': State, k: nat)
    requires WellFormed(t) && k <= |s.workers| && s' == s.(astray := true)
    ensures Added(t, s', k) == Added(t, s, k)
  {
    hide First, Limit;
    if k > 0 {
      SameAdded(t, s, s', k - 1);
    }
  }

  /** Something is got for one block of the worker's share. */
  lemma {:induction false} GotOwn(t: Task, s: State, s': State, i: nat, b: nat, r: Read, w: Worker)
    requires WellFormed(t) && i < |s.workers| && b < |s.got| && Handles(t, i, b)
    requires s'.workers == s.workers[i := w] && s'.got == s.got[b := Some(r)] && s'.dest == s.dest
    ensures OwnBlocks(t, s, s', i)
  {
    hide First, Limit, Stored;
  }

  lemma {:induction false} GotMore(t: Task, s: State, s': State, b: nat, r: Read)
    requires WellFormed(t) && |s.got| == Blocks(t) && b < |s.got| && s'.got == s.got[b := Some(r)] && May(t, b, r)
    requires forall c :: 0 <= c < |s.got| ==> GotOk(t, s, c)
    ensures forall c :: 0 <= c < |s'.got| ==> GotOk(t, s', c)
  {
    hide May;
    forall c | 0 <= c < |s'.got|
      ensures GotOk(t, s', c)
    {
      assert GotOk(t, s, c);
    }
  }

  lemma {:induction false} GotBehind(t: Task, s: State, s': State, i: nat, b: nat, r: Read)
    requires WellFormed(t) && b < |s.got| && s'.got == s.got[b := Some(r)] && s'.dest == s.dest && Behind(t, s, i, b)
    ensures Behind(t, s', i, b) && Count(s'.got, First(t, i), b) == Count(s.got, First(t, i), b)
  {
    hide First, Stored;
    forall c: nat | First(t, i) <= c < b
      ensures InPlace(t, s', c)
    {
      assert InPlace(t, s, c);
    }
    CountSame(s.got, s'.got, First(t, i), b);
  }

  lemma {:induction false} FetchInv(t: Task, was: seq<byte>, s: State, s': State, i: nat, bytes: seq<byte>)
    requires Inv(t, was, s) && Fetch(t, s, s', i, bytes)
    ensures Inv(t, was, s')
  {
    hide First, Limit, BlockCount, OthersKept, FailedWith, OwnBlocks, InPlace, May, GotOk;
    assert WorkerOk(t, s, i);
    var b := s.workers[i].block;
    GotOwn(t, s, s', i, b, Got(bytes), s'.workers[i]);
    GotMore(t, s, s', b, Got(bytes));
    GotBehind(t, s, s', i, b, Got(bytes));
    GotShort(t, b, bytes);
    Moved(t, was, s, s', i);
  }

  lemma {:induction false} FailInv(t: Task, was: seq<byte>, s: State, s': State, i: nat, code: int)
    requires Inv(t, was, s) && Fail(t, s, s', i, code)
    ensures Inv(t, was, s')
  {
    hide First, Limit, BlockCount, OthersKept, OwnBlocks, InPlace, May, GotOk;
    assert WorkerOk(t, s, i);
    var b := s.workers[i].block;
    GotOwn(t, s, s', i, b, Failed(code), Left);
    GotMore(t, s, s', b, Failed(code));
    Moved(t, was, s, s', i);
  }

  /** A store into block `b` touches no other block. */
  lemma {:induction false} StoreApart(t: Task, s: State, s': State, b: nat, bytes: seq<byte>, lo: nat, hi: nat, c: nat)
    requires WellFormed(t) && b < |s.got| == Blocks(t) && c < |s.got| && c != b && s'.got == s.got
    requires lo <= hi <= |bytes| <= BlockSize(t.n, t.blockSize, b) && t.base + Pos(t, b) + hi <= |s.dest|
    requires s'.dest == Overwrite(s.dest, t.base + Pos(t, b) + lo, bytes[lo..hi])
    ensures Untouched(t, s, s', c)
  {
    hide BlockCount, BlockSize, Pos, Overwrite;
    BlocksApart(t, b, c);
    forall x: seq<byte>, k: nat | Stored(t, s.dest, c, x, k) && |x| <= BlockSize(t.n, t.blockSize, c)
      ensures Stored(t, s'.dest, c, x, k)
    {
    }
  }

  lemma {:induction false} StoreGrows(t: Task, dest: seq<byte>, b: nat, bytes: seq<byte>, lo: nat, hi: nat)
    requires WellFormed(t) && lo <= hi <= |bytes| && t.base + Pos(t, b) + hi <= |dest| && Stored(t, dest, b, bytes, lo)
    ensures Stored(t, Overwrite(dest, t.base + Pos(t, b) + lo, bytes[lo..hi]), b, bytes, hi)
  {
    hide Overwrite, Pos;
  }

  lemma {:induction false} StoreInv(t: Task, was: seq<byte>, s: State, s': State, i: nat, upto: nat)
    requires Inv(t, was, s) && Store(t, s, s', i, upto)
    ensures Inv(t, was, s')
  {
    hide First, Limit, BlockCount, FailedWith, InPlace, May, Overwrite, Pos, Stored, Untouched, BlockSize;
    assert WorkerOk(t, s, i);
    var w := s.workers[i];
    var b := w.block;
    assert GotOk(t, s, b);
    GotShort(t, b, w.bytes);
    forall c: nat | c < |s.got| && c != b
      ensures Untouched(t, s, s', c)
    {
      StoreApart(t, s, s', b, w.bytes, w.done, upto, c);
    }
    StoreGrows(t, s.dest, b, w.bytes, w.done, upto);
    forall c: nat | First(t, i) <= c < b
      ensures InPlace(t, s', c)
    {
      assert InPlace(t, s, c);
      InPlaceKept(t, was, s, s', c, b);
    }
    SameGot(t, s, s');
    Moved(t, was, s, s', i);
  }

  lemma {:induction false} InPlaceKept(t: Task, was: seq<byte>, s: State, s': State, c: nat, b: nat)
    requires Inv(t, was, s) && InPlace(t, s, c) && c < b < |s.got| == |s'.got| && |s.dest| == |s'.dest| && Untouched(t, s, s', c)
    ensures InPlace(t, s', c)
  {
    hide First, Limit, BlockCount, May, Stored, WorkerOk, Added, OthersKept, BlockSize;
    assert GotOk(t, s, c);
    KeptInPlace(t, s, s', c);
  }

  lemma {:induction false} InitialInv(t: Task, s: State)
    requires Initial(t, s)
    ensures Inv(t, s.dest, s)
  {
    hide First, Limit, BlockCount;
    AddedNone(t, s, t.threads);
  }

  /** Every step of every worker keeps the invariant. */
  lemma {:induction false} StepInv(t: Task, was: seq<byte>, s: State, s': State)
    requires Inv(t, was, s) && Next(t, s, s')
    ensures Inv(t, was, s')
  {
    hide Inv, Begin, Fetch, Fail, Stray, Store, GoOn, Sum, Quit;
    Formed(t, was, s);
    var i: nat :| StepOf(t, s, s', i);
    if Begin(t, s, s', i) {
      BeginInv(t, was, s, s', i);
    } else if Stray(t, s, s', i) {
      StrayInv(t, was, s, s', i);
    } else if GoOn(t, s, s', i) {
      GoOnInv(t, was, s, s', i);
    } else if Sum(t, s, s', i) {
      SumInv(t, was, s, s', i);
    } else if Quit(s, s', i) {
      QuitInv(t, was, s, s', i);
    } else if exists bytes: seq<byte> :: Fetch(t, s, s', i, bytes) {
      var bytes: seq<byte> :| Fetch(t, s, s', i, bytes);
      FetchInv(t, was, s, s', i, bytes);
    } else if exists code: int :: Fail(t, s, s', i, code) {
      var code: int :| Fail(t, s, s', i, code);
      FailInv(t, was, s, s', i, code);
    } else {
      var upto: nat :| Store(t, s, s', i, upto);
      StoreInv(t, was, s, s', i, upto);
    }
  }

  lemma {:induction false} Formed(t: Task, was: seq<byte>, s: State)
    requires Inv(t, was, s)
    ensures WellFormed(t)
  {
  }

  /** A run: any interleaving of steps from an initial state. */
  ghost predicate Run(t: Task, run: seq<State>)
    requires WellFormed(t)
  {
    && run != [] && Initial(t, run[0])
    && forall k :: 0 <= k < |run| - 1 ==> Next(t, run[k], run[k + 1])
  }

  lemma {:induction false} RunInv(t: Task, run: seq<State>)
    requires WellFormed(t) && Run(t, run)
    ensures Inv(t, run[0].dest, run[|run| - 1])
    decreases |run|
  {
    hide Inv, Initial, Next;
    if |run| == 1 {
      InitialInv(t, run[0]);
    } else {
      var before := run[..|run| - 1];
      forall k | 0 <= k < |before| - 1
        ensures Next(t, before[k], before[k + 1])
      {
        assert Next(t, run[k], run[k + 1]);
      }
      RunInv(t, before);
      assert Next(t, run[|run| - 2], run[|run| - 2 + 1]);
      StepInv(t, run[0].dest, run[|run| - 2], run[|run| - 1]);
    }
  }

  // ----- the end of the job -----

  ghost predicate AllDone(s: State) {
    forall i :: 0 <= i < |s.workers| ==> s.workers[i].Summed? || s.workers[i].Left?
  }

  /** Every block was handled. */
  lemma {:induction false} AllInPlace(t: Task, was: seq<byte>, s: State, b: nat)
    requires Inv(t, was, s) && b < Blocks(t) && forall i :: 0 <= i < |s.workers| ==> s.workers[i].Summed?
    ensures InPlace(t, s, b) && GotOk(t, s, b)
  {
    hide First, Limit, BlockCount, InPlace, GotOk, Added, OthersKept;
    var i := OneWorkerEach(t, b);
    assert WorkerOk(t, s, i);
  }

  /** Whatever the interleaving: when all workers are done, either nobody gave up, every block holds what reading it
      gave, and the counter has grown by all their bytes; or the code is that of a block that failed to be read.
      Nothing outside of the blocks has changed. */
  lemma {:induction false} SharesDone(t: Task, run: seq<State>)
    requires WellFormed(t) && Run(t, run) && AllDone(run[|run| - 1])
    ensures var s := run[|run| - 1];
      && OthersKept(t, run[0].dest, s.dest) && |s.got| == Blocks(t)
      && (s.giveup > 0 ==> s.total == t.start + Count(s.got, 0, Blocks(t)) && forall b: nat :: b < Blocks(t) ==> InPlace(t, s, b) && GotOk(t, s, b))
      && (s.giveup <= 0 ==> FailedWith(t, s.giveup))
  {
    hide First, Limit, BlockCount, InPlace, OthersKept, FailedWith, Initial, Next, GotOk;
    RunInv(t, run);
    var s := run[|run| - 1];
    if s.giveup > 0 {
      NobodyLeft(t, run[0].dest, s);
      forall b: nat | b < Blocks(t)
        ensures InPlace(t, s, b) && GotOk(t, s, b)
      {
        AllInPlace(t, run[0].dest, s, b);
      }
      AddedAll(t, s, t.threads);
      EdgeNext(t, 0);
    }
  }

  lemma {:induction false} NobodyLeft(t: Task, was: seq<byte>, s: State)
    requires Inv(t, was, s) && AllDone(s) && s.giveup > 0
    ensures forall i :: 0 <= i < |s.workers| ==> s.workers[i].Summed?
  {
    hide First, Limit, BlockCount, InPlace, OthersKept, FailedWith, GotOk, Behind;
    forall i | 0 <= i < |s.workers|
      ensures s.workers[i].Summed?
    {
      assert WorkerOk(t, s, i);
    }
  }

  // ----- when reading can only lead to one thing -----

  /** Whatever a worker gets for a block is the block of `data`. */
  ghost predicate Determined(t: Task, data: seq<byte>)
    requires WellFormed(t)
  {
    |data| == t.n && forall b: nat, r: Read :: b < Blocks(t) && May(t, b, r) ==> r == Got(Block(data, t.blockSize, b))
  }

  lemma {:induction false} NoTrouble(t: Task, data: seq<byte>)
    requires WellFormed(t) && Determined(t, data)
    ensures !SomeStrays(t) && forall code: int :: !FailedWith(t, code)
  {
    hide May, Blocks;
  }

  /** The first blocks of the data, joined up. */
  lemma {:induction false} BlocksJoin(t: Task, data: seq<byte>, s: State, b: nat)
    requires WellFormed(t) && Determined(t, data) && b <= Blocks(t) == |s.got| && t.base + t.n <= |s.dest|
    requires forall c: nat :: c < b ==> InPlace(t, s, c) && GotOk(t, s, c)
    ensures Count(s.got, 0, b) == Pos(t, b)
    ensures s.dest[t.base..t.base + Pos(t, b)] == data[..Pos(t, b)]
  {
    hide BlockCount, BlockStart, Pos, May, BlockSize, Block;
    NextPos(t, 0);
    if b > 0 {
      BlocksJoin(t, data, s, b - 1);
      assert InPlace(t, s, b - 1) && GotOk(t, s, b - 1);
      NextPos(t, b - 1);
      PieceOf(t, data, b - 1);
      var lo, hi := Pos(t, b - 1), Pos(t, b);
      var piece := Block(data, t.blockSize, b - 1);
      PieceThere(t, s.dest, b - 1, piece);
      assert s.dest[t.base..t.base + hi] == s.dest[t.base..t.base + lo] + s.dest[t.base + lo..t.base + hi];
      assert data[..hi] == data[..lo] + data[lo..hi];
    }
  }

  lemma {:induction false} PieceOf(t: Task, data: seq<byte>, b: nat)
    requires WellFormed(t) && |data| == t.n && b < Blocks(t)
    ensures Pos(t, b) + BlockSize(t.n, t.blockSize, b) <= t.n
    ensures Block(data, t.blockSize, b) == data[Pos(t, b)..Pos(t, b) + BlockSize(t.n, t.blockSize, b)]
  {
    hide BlockCount, BlockStart;
    NextPos(t, b);
  }

  lemma {:induction false} PieceThere(t: Task, dest: seq<byte>, b: nat, bytes: seq<byte>)
    requires WellFormed(t) && Stored(t, dest, b, bytes, |bytes|)
    ensures dest[t.base + Pos(t, b)..t.base + Pos(t, b) + |bytes|] == bytes
  {
    hide Pos;
  }

  /** Then no run goes wrong: nobody stores outside, nobody gives up, and in the end the data are in place and counted. */
  lemma {:induction false} DataDone(t: Task, data: seq<byte>, run: seq<State>)
    requires WellFormed(t) && Run(t, run) && Determined(t, data)
    ensures var s := run[|run| - 1];
      && !s.astray && s.giveup > 0 && OthersKept(t, run[0].dest, s.dest) && t.base + t.n <= |s.dest|
      && (AllDone(s) ==> s.dest[t.base..t.base + t.n] == data && s.total == t.start + t.n)
  {
    hide First, Limit, BlockCount, InPlace, OthersKept, FailedWith, SomeStrays, Initial, Next, GotOk, Determined, AllDone, Pos;
    RunInv(t, run);
    NoTrouble(t, data);
    var s := run[|run| - 1];
    if AllDone(s) {
      SharesDone(t, run);
      BlocksJoin(t, data, s, Blocks(t));
      LastPos(t);
      assert |data| == t.n && data[..t.n] == data by {
        DataSize(t, data);
      }
    }
  }

  lemma {:induction false} DataSize(t: Task, data: seq<byte>)
    requires WellFormed(t) && Determined(t, data)
    ensures |data| == t.n
  {
  }

  lemma {:induction false} LastPos(t: Task)
    requires WellFormed(t)
    ensures Pos(t, Blocks(t)) == t.n
  {
  }

  /** Copying has one outcome. */
  lemma {:induction false} PlainDetermined(t: Task)
    requires WellFormed(t) && t.source.Plain?
    ensures Determined(t, t.source.bytes)
  {
    hide Block, BlockCount;
  }
}
