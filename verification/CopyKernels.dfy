// The block-wise copy kernels of blosc/fastcopy.c and blosc/blosclz.c. Each one moves
// several bytes at a time inside one output buffer, and each one is proved to produce
// exactly what the byte-at-a-time LZ copy produces, overlap included.

module CopyKernels {
  import opened Bytes
  import opened LzCopies

  /** `now` agrees with `was` below `lo` and from `hi` on. */
  ghost predicate SameOutside(now: seq<byte>, was: seq<byte>, lo: nat, hi: nat)
    requires |now| == |was|
  {
    && (forall i :: 0 <= i < lo && i < |now| ==> now[i] == was[i])
    && (forall i :: hi <= i < |now| ==> now[i] == was[i])
  }

  /** Every byte of `s` in [lo, hi) repeats the byte `dist` before it, or behind it when `dist` is negative. */
  ghost predicate Repeats(s: seq<byte>, dist: int, lo: nat, hi: nat)
    requires dist <= lo && hi <= |s| && hi - dist <= |s|
  {
    forall i :: lo <= i < hi ==> s[i] == s[i - dist]
  }

  /** A finished overlapping copy: the LZ copy in place and nothing touched before it or from `slackEnd` on. */
  ghost predicate CopiedTo(now: seq<byte>, was: seq<byte>, out: nat, dist: nat, len: nat, slackEnd: nat)
  {
    && |now| == |was| && 1 <= dist <= out && out + len <= |was| && slackEnd <= |was|
    && now[..out + len] == LzCopy(was[..out], dist, len)
    && SameOutside(now, was, out, slackEnd)
  }

  lemma {:induction false} RepeatsIsCopied(now: seq<byte>, was: seq<byte>, out: nat, dist: nat, len: nat, slackEnd: nat)
    requires |now| == |was| && 1 <= dist <= out && out + len <= slackEnd <= |was|
    requires Repeats(now, dist, out, out + len) && SameOutside(now, was, out, slackEnd)
    ensures CopiedTo(now, was, out, dist, len, slackEnd)
  {
    var r := now[..out + len];
    assert r[..out] == was[..out];
    LzCopyUnique(r, was[..out], dist, len);
  }

  /** A copier that stays below `slackEnd` also stays below any later limit. */
  lemma {:induction false} CopiedWithin(now: seq<byte>, was: seq<byte>, out: nat, dist: nat, len: nat, slackEnd: nat, limit: nat)
    requires CopiedTo(now, was, out, dist, len, slackEnd) && slackEnd <= limit <= |was|
    ensures CopiedTo(now, was, out, dist, len, limit)
  {
  }

  /** In a repeating stretch, positions a whole number of periods apart hold the same byte. */
  lemma {:induction false} PeriodsApart(s: seq<byte>, dist: nat, lo: nat, hi: nat, i: nat, j: nat, periods: nat)
    requires 1 <= dist <= lo && hi <= |s| && Repeats(s, dist, lo, hi)
    requires lo - dist <= i && j == i + periods * dist && j < hi
    ensures s[i] == s[j]
    decreases periods
  {
    if periods > 0 {
      assert periods * dist == (periods - 1) * dist + dist;
      assert (periods - 1) * dist >= 0;
      PeriodsApart(s, dist, lo, hi, i, j - dist, periods - 1);
    }
  }

  /** memcpy of `n` bytes inside one buffer: all loads happen before the stores. */
  method CopyBlock(buf: array<byte>, d: nat, s: nat, n: nat)
    requires d + n <= buf.Length && s + n <= buf.Length
    modifies buf
    ensures forall i :: d <= i < d + n ==> buf[i] == old(buf[i - d + s])
    ensures forall i :: 0 <= i < buf.Length && !(d <= i < d + n) ==> buf[i] == old(buf[i])
  {
    forall i | d <= i < d + n {
      buf[i] := buf[i - d + s];
    }
  }

  /** One block of a forward copy whose earlier blocks are done; it may overwrite bytes already copied. */
  method ForwardBlock(buf: array<byte>, dist: int, ghost lo: nat, o: nat, ghost hi: nat, sz: nat)
    requires 1 <= sz && lo <= o <= hi <= o + sz <= buf.Length
    requires sz <= dist <= lo || (o + sz <= lo - dist && o + sz - dist <= buf.Length)
    requires Repeats(buf[..], dist, lo, hi)
    modifies buf
    ensures Repeats(buf[..], dist, lo, o + sz)
    ensures SameOutside(buf[..], old(buf[..]), o, o + sz)
  {
    CopyBlock(buf, o, o - dist, sz);
  }

  /** The source lies at least one register of `simd` bytes before the target, or source and target do not overlap. */
  predicate Apart(out: nat, from: nat, len: nat, simd: nat, n: nat) {
    && out + len <= n && from + len <= n
    && (from + simd <= out || from + len <= out || out + len <= from)
  }

  /** The 7-or-fewer byte copies: one, two and four bytes at a time. */
  method CopyBytes(buf: array<byte>, out: nat, from: nat, len: nat)
    requires len < 8 && Apart(out, from, len, 8, buf.Length)
    modifies buf
    ensures Repeats(buf[..], out - from, out, out + len)
    ensures SameOutside(buf[..], old(buf[..]), out, out + len)
  {
    var done := 0;
    if len % 2 == 1 {
      ForwardBlock(buf, out - from, out, out, out, 1);
      done := 1;
    }
    if len / 2 % 2 == 1 {
      ForwardBlock(buf, out - from, out, out + done, out + done, 2);
      done := done + 2;
    }
    if len / 4 == 1 {
      ForwardBlock(buf, out - from, out, out + done, out + done, 4);
      done := done + 4;
    }
    assert done == len;
  }

  /** chunk_memcpy, chunk_memcpy_16 and chunk_memcpy_unaligned: one block of `sz` bytes at the
      start, then whole blocks from `len % sz` on, so that the first two blocks overlap. */
  method ChunkCopy(buf: array<byte>, out: nat, from: nat, len: nat, sz: nat)
    requires 1 <= sz <= len && Apart(out, from, len, sz, buf.Length)
    modifies buf
    ensures Repeats(buf[..], out - from, out, out + len)
    ensures SameOutside(buf[..], old(buf[..]), out, out + len)
  {
    var rem := len % sz;
    var dist := out - from;
    BlocksCover(len, sz);
    ForwardBlock(buf, dist, out, out, out, sz);
    var o: nat, blocks: nat := out + rem, len / sz;
    ghost var hi := out + sz;
    while blocks > 0
      invariant o + Times(blocks, sz) == out + len && o <= hi <= out + len && out <= o
      invariant hi <= o + sz && (blocks == 0 ==> hi == o)
      invariant Repeats(buf[..], dist, out, hi)
      invariant SameOutside(buf[..], old(buf[..]), out, out + len)
    {
      ForwardBlock(buf, dist, out, o, hi, sz);
      o, blocks := o + sz, blocks - 1;
      hi := o;
    }
  }

  /** `n` blocks of `sz` bytes. */
  ghost function Times(n: nat, sz: nat): nat {
    if n == 0 then 0 else Times(n - 1, sz) + sz
  }

  lemma {:induction false} BlocksCover(len: nat, sz: nat)
    requires sz >= 1
    ensures Times(len / sz, sz) + len % sz == len
  {
    TimesIsProduct(len / sz, sz);
  }

  lemma {:induction false} TimesIsProduct(n: nat, sz: nat)
    ensures Times(n, sz) == n * sz
  {
    if n > 0 {
      TimesIsProduct(n - 1, sz);
      assert n * sz == (n - 1) * sz + sz;
    }
  }

  /** fastcopy for a build whose widest register holds `simd` bytes (8, 16 or 32): within one buffer from at least
      one register before the target, or between separate buffers, `buf` then being the memory that has both. */
  method FastCopy(buf: array<byte>, out: nat, from: nat, len: nat, simd: nat)
    requires simd == 8 || simd == 16 || simd == 32
    requires Apart(out, from, len, simd, buf.Length)
    modifies buf
    ensures from < out ==> CopiedTo(buf[..], old(buf[..]), out, out - from, len, out + len)
    ensures from + len <= out || out + len <= from ==> buf[out..out + len] == old(buf[from..from + len])
    ensures SameOutside(buf[..], old(buf[..]), out, out + len)
  {
    hide Repeats, SameOutside, CopiedTo;
    if len == 0 {
      NothingMoved(buf[..], out - from, out);
    } else if len == 32 || len == 16 || len == 8 {
      // copy_32_bytes and copy_16_bytes fall back on narrower registers
      ChunkCopy(buf, out, from, len, if len <= simd then len else simd);
    } else if len < 8 {
      CopyBytes(buf, out, from, len);
    } else if len < 16 || simd == 8 {
      ChunkCopy(buf, out, from, len, 8);
    } else if simd == 16 || len >= 32 {
      ChunkCopy(buf, out, from, len, simd);
    } else {
      ChunkCopy(buf, out, from, len, 16);
    }
    Moved(buf[..], old(buf[..]), out, from, len);
  }

  lemma {:induction false} NothingMoved(s: seq<byte>, dist: int, out: nat)
    requires dist <= out <= |s| && out - dist <= |s|
    ensures Repeats(s, dist, out, out) && SameOutside(s, s, out, out)
  {
  }

  /** A finished forward copy, overlapping or not. */
  lemma {:induction false} Moved(now: seq<byte>, was: seq<byte>, out: nat, from: nat, len: nat)
    requires |now| == |was| && out + len <= |now| && from + len <= |now|
    requires Repeats(now, out - from, out, out + len) && SameOutside(now, was, out, out + len)
    ensures from < out ==> CopiedTo(now, was, out, out - from, len, out + len)
    ensures from + len <= out || out + len <= from ==> now[out..out + len] == was[from..from + len]
  {
    if from < out {
      RepeatsIsCopied(now, was, out, out - from, len, out + len);
    }
    if from + len <= out || out + len <= from {
      var a, b := now[out..out + len], was[from..from + len];
      forall i | 0 <= i < len
        ensures a[i] == b[i]
      {
        assert now[out + i] == now[out + i - (out - from)];
      }
    }
  }

  /** The `n` bytes at `b` equal those at `a`. */
  ghost predicate Mirrors(s: seq<byte>, a: nat, b: nat, n: nat)
    requires a <= b && b + n <= |s|
  {
    forall i :: b <= i < b + n ==> s[i] == s[i - b + a]
  }

  method CopyPiece(buf: array<byte>, o: nat, from: nat, done: nat, n: nat)
    requires from + done + n <= o && o + done + n <= buf.Length
    requires Mirrors(buf[..], from, o, done)
    modifies buf
    ensures Mirrors(buf[..], from, o, done + n)
    ensures SameOutside(buf[..], old(buf[..]), o + done, o + done + n)
  {
    CopyBlock(buf, o + done, from + done, n);
  }

  /** One period of an overlapping run, moved in power-of-two pieces: each case label of the
      source's switch is the sum of the pieces it copies. */
  method CopyPeriod(buf: array<byte>, o: nat, from: nat, dist: nat)
    requires HasPeriodCase(dist) && from + dist <= o && o + dist <= buf.Length
    modifies buf
    ensures Mirrors(buf[..], from, o, dist)
    ensures SameOutside(buf[..], old(buf[..]), o, o + dist)
  {
    if dist == 32 {
      CopyPiece(buf, o, from, 0, 32);
      return;
    }
    var done := 0;
    if dist >= 16 {
      CopyPiece(buf, o, from, 0, 16);
      done := 16;
    }
    if dist / 8 % 2 == 1 {
      CopyPiece(buf, o, from, done, 8);
      done := done + 8;
    }
    if dist / 4 % 2 == 1 {
      CopyPiece(buf, o, from, done, 4);
      done := done + 4;
    }
    if dist / 2 % 2 == 1 {
      CopyPiece(buf, o, from, done, 2);
      done := done + 2;
    }
    assert done == dist;
  }

  /** The distances for which copy_match has a case of its own. */
  predicate HasPeriodCase(dist: nat) {
    dist == 32 || (16 <= dist <= 30 && dist % 2 == 0) || dist == 8 || dist == 4 || dist == 2
  }

  /** copy_match: any overlap. */
  method CopyMatch(buf: array<byte>, out: nat, from: nat, len: nat, simd: nat)
    requires simd == 8 || simd == 16 || simd == 32
    requires from < out && out + len <= buf.Length
    modifies buf
    ensures CopiedTo(buf[..], old(buf[..]), out, out - from, len, out + len)
  {
    var dist := out - from;
    if dist > simd {
      FastCopy(buf, out, from, len, simd);
      return;
    }
    var o: nat, left: nat := out, len;
    if HasPeriodCase(dist) {
      o, left := CopyPeriods(buf, out, from, len);
    }
    CopyTail(buf, out, from, dist, o, left);
    RepeatsIsCopied(buf[..], old(buf[..]), out, dist, len, out + len);
  }

  /** Whole periods; `from` stays at the first one. */
  method CopyPeriods(buf: array<byte>, out: nat, from: nat, len: nat) returns (o: nat, left: nat)
    requires from < out && out + len <= buf.Length && HasPeriodCase(out - from)
    modifies buf
    ensures o + left == out + len && out <= o && left < out - from && Mirrors(buf[..], from, o - (out - from), left)
    ensures Repeats(buf[..], out - from, out, o) && SameOutside(buf[..], old(buf[..]), out, o)
  {
    hide HasPeriodCase;
    var dist := out - from;
    o, left := out, len;
    while left >= dist
      invariant o + left == out + len && out <= o
      invariant Mirrors(buf[..], from, o - dist, dist)
      invariant Repeats(buf[..], dist, out, o)
      invariant SameOutside(buf[..], old(buf[..]), out, o)
    {
      PeriodStep(buf, out, from, dist, o);
      o, left := o + dist, left - dist;
    }
  }

  /** The remaining bytes one by one, from one period behind or from the first period. */
  method CopyTail(buf: array<byte>, ghost out: nat, from: nat, dist: nat, o0: nat, left0: nat)
    requires 1 <= dist <= out <= o0 && o0 + left0 <= buf.Length && from <= o0 - dist
    requires from == o0 - dist || (left0 < dist && Mirrors(buf[..], from, o0 - dist, left0))
    requires Repeats(buf[..], dist, out, o0)
    modifies buf
    ensures Repeats(buf[..], dist, out, o0 + left0)
    ensures SameOutside(buf[..], old(buf[..]), o0, o0 + left0)
  {
    var f: nat, o: nat, left: nat := from, o0, left0;
    while left > 0
      invariant o + left == o0 + left0 && o0 <= o && f <= o - dist
      invariant f == o - dist || (left < dist && Mirrors(buf[..], f, o - dist, left))
      invariant Repeats(buf[..], dist, out, o)
      invariant SameOutside(buf[..], old(buf[..]), o0, o)
    {
      assert buf[f] == buf[o - dist];
      ghost var was := buf[..];
      buf[o] := buf[f];
      if f != o - dist {
        assert Mirrors(was, f + 1, o + 1 - dist, left - 1);
      }
      o, f, left := o + 1, f + 1, left - 1;
    }
  }

  method PeriodStep(buf: array<byte>, ghost out: nat, from: nat, dist: nat, o: nat)
    requires HasPeriodCase(dist) && from + dist == out <= o && o + dist <= buf.Length
    requires Mirrors(buf[..], from, o - dist, dist) && Repeats(buf[..], dist, out, o)
    modifies buf
    ensures Mirrors(buf[..], from, o, dist) && Repeats(buf[..], dist, out, o + dist)
    ensures SameOutside(buf[..], old(buf[..]), o, o + dist)
  {
    ghost var was := buf[..];
    CopyPeriod(buf, o, from, dist);
    forall i | o <= i < o + dist
      ensures buf[i] == buf[i - dist]
    {
      assert was[i - dist] == was[i - o + from];
    }
  }

  /** Where the last 8-byte store of a wild copy ends; at least one store is always made. */
  function WildEnd(out: nat, len: nat): (e: nat)
    ensures out + len <= e <= out + len + 8 && (len > 0 ==> e < out + len + 8)
  {
    if len == 0 then out + 8 else out + (len + 7) / 8 * 8
  }

  /** wild_copy and LZ4_wildCopy8 inside one buffer: eight bytes at a time, overshooting the end. */
  method WildCopy(buf: array<byte>, out: nat, from: nat, len: nat)
    requires from + 8 <= out && WildEnd(out, len) <= buf.Length
    modifies buf
    ensures Repeats(buf[..], out - from, out, WildEnd(out, len))
    ensures SameOutside(buf[..], old(buf[..]), out, WildEnd(out, len))
  {
    var dist := out - from;
    ForwardBlock(buf, dist, out, out, out, 8);
    var d := out + 8;
    while d < out + len
      invariant out + 8 <= d <= WildEnd(out, len) && (d - out) % 8 == 0
      invariant d < out + len ==> d + 8 <= WildEnd(out, len)
      invariant d >= out + len ==> d == WildEnd(out, len)
      invariant Repeats(buf[..], dist, out, d)
      invariant SameOutside(buf[..], old(buf[..]), out, d)
    {
      ForwardBlock(buf, dist, out, d, d, 8);
      d := d + 8;
    }
  }

  /** A pshufb mask of copy_match_16: every row of the table is the lane number modulo the offset. */
  function MaskRow(offset: nat): (row: seq<nat>)
    requires 1 <= offset <= 16
    ensures |row| == 16
  {
    seq(16, lane requires 0 <= lane => Remainder(lane, offset))
  }

  function Remainder(j: nat, k: nat): (r: nat)
    requires k >= 1
    ensures r < k
  {
    if j < k then j else Remainder(j - k, k)
  }

  /** Row 0 of the table: by how much `match` advances. */
  const ADVANCES: seq<nat> := [0, 1, 2, 1, 4, 1, 4, 2, 8, 7, 6, 5, 4, 3, 2, 1]

  /** Lane `j` of a mask selects byte `j` modulo `offset`. */
  ghost predicate Folds(row: seq<nat>, offset: nat) {
    && (forall j :: 0 <= j < |row| ==> row[j] < offset)
    && (forall j :: 0 <= j < offset && j < |row| ==> row[j] == j)
    && (forall j :: offset <= j < |row| ==> row[j] == row[j - offset])
  }

  method LoadMask(offset: nat) returns (row: seq<nat>)
    requires 1 <= offset <= 16
    ensures |row| == 16 && Folds(row, offset)
  {
    row := MaskRow(offset);
  }

  /** After sixteen bytes the gap between `op` and `match` is again a whole number of periods;
      for offset 16 the lookup reads the first lane of row 1. */
  method LoadAdvance(offset: nat) returns (advance: nat, ghost periods: nat)
    requires 1 <= offset <= 16
    ensures advance <= 16 && 16 - advance == periods * offset
  {
    advance := if offset < 16 then ADVANCES[offset] else MaskRow(1)[0];
    periods := (16 - advance) / offset;
  }

  /** copy_match_16: one shuffled 16-byte store per iteration; `match` falls behind `op` by whole periods. */
  method CopyMatch16(buf: array<byte>, out: nat, from: nat, len: nat)
    requires from < out <= from + 16 && out + len <= buf.Length
    modifies buf
    ensures CopiedTo(buf[..], old(buf[..]), out, out - from, len, out + len)
  {
    var offset := out - from;
    var op: nat, mat: nat, left: nat := out, from, len;
    ghost var gap: nat := 1;
    while left >= 16
      invariant op + left == out + len && out <= op
      invariant from <= mat && op == mat + gap * offset && gap >= 1
      invariant Repeats(buf[..], offset, out, op)
      invariant SameOutside(buf[..], old(buf[..]), out, op)
    {
      GapReaches(buf[..], offset, out, op, mat, gap);
      ShuffledStore(buf, out, op, mat, offset);
      var advance, periods := LoadAdvance(offset);
      assert (gap + periods) * offset == gap * offset + periods * offset;
      gap := gap + periods;
      mat, op, left := mat + advance, op + 16, left - 16;
    }
    PhaseTail(buf, out, offset, op, mat, left, gap);
    RepeatsIsCopied(buf[..], old(buf[..]), out, offset, len, out + len);
  }

  /** The remainder loop of copy_match_16, whole periods behind. */
  method PhaseTail(buf: array<byte>, ghost out: nat, ghost offset: nat, op0: nat, mat0: nat, left0: nat, ghost gap: nat)
    requires 1 <= offset <= out <= op0 && op0 + left0 <= buf.Length && out - offset <= mat0
    requires op0 == mat0 + gap * offset && gap >= 1 && Repeats(buf[..], offset, out, op0)
    modifies buf
    ensures Repeats(buf[..], offset, out, op0 + left0)
    ensures SameOutside(buf[..], old(buf[..]), op0, op0 + left0)
  {
    var op: nat, mat: nat, left: nat := op0, mat0, left0;
    GapReaches(buf[..], offset, out, op, mat, gap);
    while left > 0
      invariant op + left == op0 + left0 && op0 <= op && out - offset <= mat < op
      invariant op == mat + gap * offset
      invariant Repeats(buf[..], offset, out, op)
      invariant SameOutside(buf[..], old(buf[..]), op0, op)
    {
      GapReaches(buf[..], offset, out, op, mat, gap);
      buf[op] := buf[mat];
      mat, op, left := mat + 1, op + 1, left - 1;
    }
  }

  /** Reading within one period of `mat` is reading within the last period before `op`. */
  lemma {:induction false} GapReaches(s: seq<byte>, offset: nat, out: nat, op: nat, mat: nat, gap: nat)
    requires 1 <= offset <= out <= op <= |s| && out - offset <= mat
    requires op == mat + gap * offset && gap >= 1 && Repeats(s, offset, out, op)
    ensures mat + offset <= op && forall i :: mat <= i < mat + offset ==> s[i] == s[i - mat + (op - offset)]
  {
    assert gap * offset == (gap - 1) * offset + offset;
    assert (gap - 1) * offset >= 0;
    forall i | mat <= i < mat + offset
      ensures s[i] == s[i - mat + (op - offset)]
    {
      PeriodsApart(s, offset, out, op, i, i - mat + (op - offset), gap - 1);
    }
  }

  method ShuffledStore(buf: array<byte>, ghost out: nat, op: nat, mat: nat, offset: nat)
    requires 1 <= offset <= 16 && offset <= out <= op && op + 16 <= buf.Length && mat + offset <= op
    requires forall i :: mat <= i < mat + offset ==> buf[i] == buf[i - mat + (op - offset)]
    requires Repeats(buf[..], offset, out, op)
    modifies buf
    ensures Repeats(buf[..], offset, out, op + 16)
    ensures SameOutside(buf[..], old(buf[..]), op, op + 16)
  {
    var mask := LoadMask(offset);
    forall i | op <= i < op + 16 {
      buf[i] := buf[mat + mask[i - op]];
    }
    forall i | op <= i < op + 16
      ensures buf[i] == buf[i - offset]
    {
      if i - op < offset {
        assert mask[i - op] == i - op;
      } else {
        assert mask[i - op] == mask[i - op - offset];
      }
    }
  }
}
