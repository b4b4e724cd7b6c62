// The match and literal copies of LZ4_decompress_generic: fixed-size block moves that
// overshoot, and table-driven starts for distances below eight.

module Lz4Copies {
  import opened Bytes
  import opened LzCopies
  import opened CopyKernels
  import opened Lz4Format

  /** A match of `len` bytes at `op` is in place and nothing changed before it or from `slackEnd` on. */
  ghost predicate MatchPlaced(now: seq<byte>, was: seq<byte>, op: nat, offset: nat, len: nat, slackEnd: nat) {
    && |now| == |was| && offset <= op && op + len <= |was| && slackEnd <= |was|
    && now[..op + len] == Repeat(was[..op], offset, len)
    && SameOutside(now, was, op, slackEnd)
  }

  lemma {:induction false} CopiedIsPlaced(now: seq<byte>, was: seq<byte>, op: nat, offset: nat, len: nat, slackEnd: nat)
    requires 1 <= offset <= op && op + len <= slackEnd <= |was| && |now| == |was|
    requires Repeats(now, offset, op, op + len) && SameOutside(now, was, op, slackEnd)
    ensures MatchPlaced(now, was, op, offset, len, slackEnd)
  {
    hide LzCopy;
    RepeatsIsCopied(now, was, op, offset, len, slackEnd);
  }

  lemma {:induction false} ZerosArePlaced(now: seq<byte>, was: seq<byte>, op: nat, len: nat, slackEnd: nat)
    requires op + len <= slackEnd <= |was| && |now| == |was|
    requires (forall i :: op <= i < op + len ==> now[i] == 0) && SameOutside(now, was, op, slackEnd)
    ensures MatchPlaced(now, was, op, 0, len, slackEnd)
  {
    assert now[..op + len] == was[..op] + seq(len, _ => 0);
  }

  /** Bytes repeating at a multiple of the distance, behind a start that repeats at the distance,
      repeat at the distance throughout. */
  lemma {:induction false} MultiplePeriod(s: seq<byte>, dist: nat, q: nat, lag: nat, lo: nat, mid: nat, hi: nat)
    requires 1 <= dist <= lo <= mid <= hi <= |s| && q >= 1 && lag == q * dist && lag <= mid - lo + dist
    requires Repeats(s, dist, lo, mid)
    requires forall i :: mid <= i < hi ==> s[i] == s[i - lag]
    ensures Repeats(s, dist, lo, hi)
    decreases hi
  {
    if hi > mid {
      MultiplePeriod(s, dist, q, lag, lo, mid, hi - 1);
      OnePeriodLess(q, dist);
      var i := hi - 1;
      PeriodsApart(s, dist, lo, i, i - lag, i - dist, q - 1);
    }
  }

  lemma {:induction false} OnePeriodLess(q: nat, dist: nat)
    requires q >= 1
    ensures q * dist == (q - 1) * dist + dist && (q - 1) * dist >= 0
  {
  }

  /** inc32table and dec64table. */
  function Inc32(offset: nat): nat
    requires offset < 8
  {
    [0, 1, 2, 1, 0, 4, 4, 4][offset]
  }

  function Dec64(offset: nat): int
    requires offset < 8
  {
    [0, 0, 0, -1, -4, 1, 2, 3][offset]
  }

  /** The table lookups keep the source a whole number of periods behind: first for bytes 4 to 7 ... */
  function LagAtFour(offset: nat): (q: nat)
    requires 1 <= offset < 8
    ensures q >= 1 && q * offset == offset + 4 - Inc32(offset) && 4 <= q * offset
  {
    [0, 4, 2, 2, 2, 1, 1, 1][offset]
  }

  /** ... and then for everything from byte 8 on, where the lag is at least eight. */
  function LagAtEight(offset: nat): (q: nat)
    requires 1 <= offset
    ensures q >= 1 && 8 <= q * offset <= 8 + offset
    ensures q * offset == if offset < 8 then offset + 8 - Inc32(offset) + Dec64(offset) else offset
  {
    if offset >= 8 then 1 else [0, 8, 4, 3, 2, 2, 2, 2][offset]
  }

  /** Four single-byte copies after the four bytes were cleared. */
  method FourBytes(dst: array<byte>, op: nat, offset: nat)
    requires offset <= op && op + 4 <= dst.Length
    modifies dst
    ensures SameOutside(dst[..], old(dst[..]), op, op + 4)
    ensures if offset == 0 then forall i :: op <= i < op + 4 ==> dst[i] == 0 else Repeats(dst[..], offset, op, op + 4)
  {
    dst[op], dst[op + 1], dst[op + 2], dst[op + 3] := 0, 0, 0, 0;
    dst[op] := dst[op - offset];
    dst[op + 1] := dst[op + 1 - offset];
    dst[op + 2] := dst[op + 2 - offset];
    dst[op + 3] := dst[op + 3 - offset];
  }

  /** The first eight bytes of a match; returns the source position for the bytes that follow. */
  method FirstEight(dst: array<byte>, op: nat, offset: nat) returns (mat: nat)
    requires offset <= op && op + 8 <= dst.Length
    modifies dst
    ensures SameOutside(dst[..], old(dst[..]), op, op + 8)
    ensures offset == 0 ==> mat == op && forall i :: op <= i < op + 8 ==> dst[i] == 0
    ensures offset > 0 ==> Repeats(dst[..], offset, op, op + 8) && mat + LagAtEight(offset) * offset == op + 8
  {
    if offset < 8 {
      FourBytes(dst, op, offset);
      var src := op - offset + Inc32(offset);
      if offset > 0 {
        ghost var lag := LagAtFour(offset) * offset;
        assert src + lag == op + 4;
        CopyBlock(dst, op + 4, src, 4);
        MultiplePeriod(dst[..], offset, LagAtFour(offset), lag, op, op + 4, op + 8);
      } else {
        CopyBlock(dst, op + 4, src, 4);
      }
      mat := src - Dec64(offset);
    } else {
      ForwardBlock(dst, offset, op, op, op, 8);
      mat := op - offset + 8;
    }
  }

  /** Zeros repeated eight bytes later stay zeros. */
  lemma {:induction false} ZerosSpread(s: seq<byte>, lo: nat, hi: nat)
    requires lo + 8 <= |s| && hi <= |s|
    requires forall i :: lo <= i < lo + 8 ==> s[i] == 0
    requires forall i :: lo + 8 <= i < hi ==> s[i] == s[i - 8]
    ensures forall i :: lo <= i < hi ==> s[i] == 0
    decreases hi
  {
    if hi > lo + 8 {
      ZerosSpread(s, lo, hi - 1);
      assert s[hi - 1] == s[hi - 9];
    }
  }

  /** The first eight bytes and the lagging copy behind them make up the whole match. */
  lemma {:induction false} StartAndLag(now: seq<byte>, was: seq<byte>, op: nat, offset: nat, len: nat, lag: nat, slackEnd: nat)
    requires offset <= op && op + len <= slackEnd <= |was| == |now| && op + 8 <= slackEnd && lag <= op + 8
    requires if offset == 0 then lag == 8 else lag == LagAtEight(offset) * offset
    requires if offset == 0 then forall i :: op <= i < op + 8 ==> now[i] == 0 else Repeats(now, offset, op, op + 8)
    requires op + 8 < op + len ==> Repeats(now, lag, op + 8, op + len)
    requires SameOutside(now, was, op, slackEnd)
    ensures MatchPlaced(now, was, op, offset, len, slackEnd)
  {
    hide MatchPlaced, LagAtEight, Repeat;
    if offset == 0 {
      ZerosSpread(now, op, op + len);
      ZerosArePlaced(now, was, op, len, slackEnd);
    } else {
      if len > 8 {
        MultiplePeriod(now, offset, LagAtEight(offset), lag, op, op + 8, op + len);
      }
      CopiedIsPlaced(now, was, op, offset, len, slackEnd);
    }
  }

  /** The rest of a match near the end of the buffer: a wild copy up to `oend` - 7, then single bytes. */
  method RestNearEnd(dst: array<byte>, o0: nat, mat0: nat, cpy: nat, oend: nat)
    requires mat0 + 8 <= o0 && cpy + LASTLITERALS <= oend <= dst.Length && o0 <= oend
    modifies dst
    ensures o0 < cpy ==> Repeats(dst[..], o0 - mat0, o0, cpy)
    ensures SameOutside(dst[..], old(dst[..]), o0, oend)
  {
    var o: nat, mat: nat := o0, mat0;
    var limit := oend - 7;
    if o < limit {
      WildCopy(dst, o, mat, limit - o);
      mat, o := mat + (limit - o), limit;
    }
    while o < cpy
      invariant o0 <= o <= oend && mat + (o0 - mat0) == o
      invariant Repeats(dst[..], o0 - mat0, o0, o)
      invariant SameOutside(dst[..], old(dst[..]), o0, oend)
    {
      dst[o] := dst[mat];
      o, mat := o + 1, mat + 1;
    }
  }

  /** The rest of a match with room to overshoot. */
  method RestWithRoom(dst: array<byte>, o: nat, mat: nat, cpy: nat, oend: nat)
    requires mat + 8 <= o && cpy + MFLIMIT <= oend <= dst.Length && o + 8 <= oend
    modifies dst
    ensures o < cpy ==> Repeats(dst[..], o - mat, o, cpy)
    ensures SameOutside(dst[..], old(dst[..]), o, oend)
  {
    ForwardBlock(dst, o - mat, o, o, o, 8);
    if cpy > o + 8 {
      ghost var was := dst[..];
      WildCopy(dst, o + 8, mat + 8, cpy - (o + 8));
      KeepRepeats(was, dst[..], o - mat, o, o + 8, oend);
    }
  }

  /** safe_match_copy; fails when the match comes too near the end of the output. */
  method SafeMatchCopy(dst: array<byte>, op: nat, offset: nat, len: nat, oend: nat) returns (ok: bool)
    requires offset <= op && op + MFLIMIT <= oend <= dst.Length && len >= MINMATCH
    modifies dst
    ensures ok <==> op + len + LASTLITERALS <= oend
    ensures ok ==> MatchPlaced(dst[..], old(dst[..]), op, offset, len, oend)
    ensures SameOutside(dst[..], old(dst[..]), op, oend)
  {
    hide MatchPlaced, LagAtEight;
    var mat := FirstEight(dst, op, offset);
    var cpy := op + len;
    ghost var eight := dst[..];
    if cpy + MFLIMIT > oend {
      if cpy + LASTLITERALS > oend {
        return false;
      }
      RestNearEnd(dst, op + 8, mat, cpy, oend);
    } else {
      RestWithRoom(dst, op + 8, mat, cpy, oend);
    }
    KeepRepeats(eight, dst[..], offset, op, op + 8, oend);
    StartAndLag(dst[..], old(dst[..]), op, offset, len, op + 8 - mat, oend);
    ok := true;
  }

  /** Later stores leave the first bytes as they were. */
  lemma {:induction false} KeepRepeats(before: seq<byte>, after: seq<byte>, dist: nat, lo: nat, hi: nat, limit: nat)
    requires |before| == |after| && dist <= lo <= hi <= |before| && SameOutside(after, before, hi, limit)
    ensures Repeats(before, dist, lo, hi) ==> Repeats(after, dist, lo, hi)
    ensures (forall i :: lo <= i < hi ==> before[i] == 0) ==> forall i :: lo <= i < hi ==> after[i] == 0
  {
  }

  // ----- copies of the fast loop, with at least 64 bytes of room -----

  /** The eight-byte pattern of a period that divides eight. */
  function Pattern(s: seq<byte>, op: nat, offset: nat): (v: seq<byte>)
    requires (offset == 1 || offset == 2 || offset == 4) && offset <= op <= |s|
    ensures |v| == 8
    ensures forall j :: 0 <= j < offset ==> v[j] == s[j - offset + op]
    ensures forall j :: offset <= j < 8 ==> v[j] == v[j - offset]
  {
    var half: seq<byte> := if offset == 1 then [s[op - 1], s[op - 1], s[op - 1], s[op - 1]]
      else if offset == 2 then [s[op - 2], s[op - 1], s[op - 2], s[op - 1]]
      else [s[op - 4], s[op - 3], s[op - 2], s[op - 1]];
    half + half
  }

  /** LZ4_memcpy_using_offset for the distances whose period divides eight: one pattern stored again and again. */
  method PatternCopy(dst: array<byte>, op: nat, offset: nat, len: nat)
    requires (offset == 1 || offset == 2 || offset == 4) && offset <= op && op + len + 8 <= dst.Length && len >= 1
    modifies dst
    ensures MatchPlaced(dst[..], old(dst[..]), op, offset, len, op + len + 8)
  {
    hide MatchPlaced, Pattern;
    ghost var was := dst[..];
    var v := Pattern(dst[..], op, offset);
    StorePattern(dst, op, v);
    PatternStart(dst[..], was, op, offset, v);
    ghost var q := if offset == 1 then 8 else if offset == 2 then 4 else 2;
    var d := op + 8;
    while d < op + len
      invariant op + 8 <= d <= op + len + 8
      invariant Repeats(dst[..], offset, op, op + 8) && Repeats(dst[..], 8, op + 8, d)
      invariant dst[d - 8..d] == v
      invariant SameOutside(dst[..], was, op, op + len + 8)
    {
      NextPattern(dst, op, offset, d, v);
      d := d + 8;
    }
    MultiplePeriod(dst[..], offset, q, 8, op, op + 8, d);
    CopiedIsPlaced(dst[..], was, op, offset, len, op + len + 8);
  }

  method NextPattern(dst: array<byte>, ghost op: nat, ghost offset: nat, d: nat, v: seq<byte>)
    requires offset <= op && op + 8 <= d && d + 8 <= dst.Length && |v| == 8 && dst[d - 8..d] == v
    requires Repeats(dst[..], offset, op, op + 8) && Repeats(dst[..], 8, op + 8, d)
    modifies dst
    ensures Repeats(dst[..], offset, op, op + 8) && Repeats(dst[..], 8, op + 8, d + 8)
    ensures dst[d..d + 8] == v && SameOutside(dst[..], old(dst[..]), d, d + 8)
  {
    ghost var before := dst[..];
    StorePattern(dst, d, v);
    forall i | d <= i < d + 8
      ensures dst[i] == dst[i - 8]
    {
      assert dst[i] == dst[d..d + 8][i - d] && before[i - 8] == before[d - 8..d][i - d];
    }
  }

  lemma {:induction false} PatternStart(now: seq<byte>, was: seq<byte>, op: nat, offset: nat, v: seq<byte>)
    requires (offset == 1 || offset == 2 || offset == 4) && offset <= op && op + 8 <= |was| == |now| && |v| == 8
    requires now[op..op + 8] == v && SameOutside(now, was, op, op + 8)
    requires forall j :: 0 <= j < offset ==> v[j] == was[j - offset + op]
    requires forall j :: offset <= j < 8 ==> v[j] == v[j - offset]
    ensures Repeats(now, offset, op, op + 8)
  {
    forall i | op <= i < op + 8
      ensures now[i] == now[i - offset]
    {
      assert now[i] == now[op..op + 8][i - op];
      if i - op >= offset {
        assert now[i - offset] == now[op..op + 8][i - op - offset];
      }
    }
  }

  method StorePattern(dst: array<byte>, d: nat, v: seq<byte>)
    requires |v| == 8 && d + 8 <= dst.Length
    modifies dst
    ensures dst[d..d + 8] == v && SameOutside(dst[..], old(dst[..]), d, d + 8)
  {
    forall i | d <= i < d + 8 {
      dst[i] := v[i - d];
    }
  }

  /** LZ4_memcpy_using_offset, for distances below 16. */
  method MemcpyUsingOffset(dst: array<byte>, op: nat, offset: nat, len: nat)
    requires offset <= op && op + len + 12 <= dst.Length && len >= MINMATCH
    modifies dst
    ensures MatchPlaced(dst[..], old(dst[..]), op, offset, len, op + len + 12)
  {
    hide MatchPlaced, LagAtEight;
    ghost var was := dst[..];
    if offset == 1 || offset == 2 || offset == 4 {
      PatternCopy(dst, op, offset, len);
      PlacedWithin(dst[..], was, op, offset, len, op + len + 8, op + len + 12);
    } else {
      var mat := FirstEight(dst, op, offset);
      ghost var eight := dst[..];
      WildCopy(dst, op + 8, mat, if len > 8 then len - 8 else 0);
      KeepRepeats(eight, dst[..], offset, op, op + 8, op + len + 12);
      StartAndLag(dst[..], was, op, offset, len, op + 8 - mat, op + len + 12);
    }
  }

  lemma {:induction false} PlacedWithin(now: seq<byte>, was: seq<byte>, op: nat, offset: nat, len: nat, slackEnd: nat, limit: nat)
    requires MatchPlaced(now, was, op, offset, len, slackEnd) && slackEnd <= limit <= |was|
    ensures MatchPlaced(now, was, op, offset, len, limit)
  {
  }

  /** LZ4_wildCopy32 inside the output: two sixteen-byte blocks per turn. */
  method WildCopy32(dst: array<byte>, op: nat, offset: nat, len: nat)
    requires 16 <= offset <= op && op + len + 32 <= dst.Length && len >= 1
    modifies dst
    ensures MatchPlaced(dst[..], old(dst[..]), op, offset, len, op + len + 32)
  {
    hide MatchPlaced;
    var d := op;
    while d < op + len
      invariant op <= d < op + len + 32
      invariant Repeats(dst[..], offset, op, d)
      invariant SameOutside(dst[..], old(dst[..]), op, op + len + 32)
    {
      ForwardBlock(dst, offset, op, d, d, 16);
      ForwardBlock(dst, offset, op, d + 16, d + 16, 16);
      d := d + 32;
    }
    CopiedIsPlaced(dst[..], old(dst[..]), op, offset, len, op + len + 32);
  }

  /** The 8 + 8 + 2 byte copy for short matches at distance eight or more. */
  method Copy18(dst: array<byte>, op: nat, offset: nat, len: nat)
    requires 8 <= offset <= op && op + 18 <= dst.Length && len <= 18
    modifies dst
    ensures MatchPlaced(dst[..], old(dst[..]), op, offset, len, op + 18)
  {
    hide MatchPlaced;
    ForwardBlock(dst, offset, op, op, op, 8);
    ForwardBlock(dst, offset, op, op + 8, op + 8, 8);
    ForwardBlock(dst, offset, op, op + 16, op + 16, 2);
    CopiedIsPlaced(dst[..], old(dst[..]), op, offset, len, op + 18);
  }

  // ----- literals -----

  /** The last byte an overshooting literal copy may write, plus one. */
  function Overshoot(op: nat, n: nat, step: nat): (e: nat)
    requires step >= 1
    ensures op + n <= e && op + step <= e
  {
    if n == 0 then op + step else op + n + step - 1
  }

  /** `n` literals are in place at `op` and nothing changed before them or from `slackEnd` on. */
  ghost predicate LiteralsPlaced(now: seq<byte>, was: seq<byte>, op: nat, lits: seq<byte>, slackEnd: nat) {
    && |now| == |was| && op + |lits| <= slackEnd <= |was|
    && now[..op + |lits|] == was[..op] + lits
    && SameOutside(now, was, op, slackEnd)
  }

  /** LZ4_wildCopy8 and LZ4_wildCopy32 from another buffer, and the 16-byte stripe: whole blocks until the end is passed. */
  method WildLiterals(dst: array<byte>, op: nat, src: seq<byte>, ip: nat, n: nat, step: nat)
    requires step >= 1 && Overshoot(op, n, step) <= dst.Length && Overshoot(ip, n, step) <= |src|
    modifies dst
    ensures LiteralsPlaced(dst[..], old(dst[..]), op, src[ip..ip + n], Overshoot(op, n, step))
  {
    var d := 0;
    StoreBlock(dst, op, src, ip, step);
    d := step;
    while d < n
      invariant step <= d && op + d <= Overshoot(op, n, step)
      invariant forall i :: op <= i < op + d ==> dst[i] == src[i - op + ip]
      invariant SameOutside(dst[..], old(dst[..]), op, Overshoot(op, n, step))
    {
      StoreBlock(dst, op + d, src, ip + d, step);
      d := d + step;
    }
    assert dst[..][..op + n] == old(dst[..])[..op] + src[ip..ip + n];
  }

  method StoreBlock(dst: array<byte>, d: nat, src: seq<byte>, s: nat, n: nat)
    requires d + n <= dst.Length && s + n <= |src|
    modifies dst
    ensures forall i :: d <= i < d + n ==> dst[i] == src[i - d + s]
    ensures SameOutside(dst[..], old(dst[..]), d, d + n)
  {
    forall i | d <= i < d + n {
      dst[i] := src[i - d + s];
    }
  }

  /** The exact copy of the last literals. */
  method ExactLiterals(dst: array<byte>, op: nat, src: seq<byte>, ip: nat, n: nat)
    requires op + n <= dst.Length && ip + n <= |src|
    modifies dst
    ensures LiteralsPlaced(dst[..], old(dst[..]), op, src[ip..ip + n], op + n)
  {
    StoreBlock(dst, op, src, ip, n);
    assert dst[..][..op + n] == old(dst[..])[..op] + src[ip..ip + n];
  }
}
