// LZ4_compress_fast: the search with its hash table and skipping steps, the emission of
// sequences with a token patched after its literals, and the round trip with the decoder.

module Lz4Encoder {
  import opened Bytes
  import opened LzCopies
  import opened Stores
  import opened Lz4Format
  import opened Lz4Copies
  import Lz4Decoder
  import Lz4Words

  const MAX_INPUT_SIZE := 0x7E00_0000
  const ACCELERATION_MAX := 65537
  const MIN_LENGTH := MFLIMIT + 1
  const LIMIT_64K := 0x1_0000 + (MFLIMIT - 1)

  // ----- the hash table -----

  datatype TableType = ByU16 | ByU32

  function TableSize(t: TableType): nat {
    if t.ByU16? then 8192 else 4096
  }

  /** LZ4_hashPosition on a 64-bit machine: four bytes for the small table, five for the other. */
  function HashPosition(src: seq<byte>, p: nat, t: TableType): (h: nat)
    requires p + 8 <= |src|
    ensures h < TableSize(t)
  {
    var low := Le32(src[p..]);
    if t.ByU16? then low * 2654435761 % 0x1_0000_0000 / 0x8_0000
    else
      var word := low + 0x1_0000_0000 * Le32(src[p + 4..]);
      word * 0x100_0000 % 0x1_0000_0000_0000_0000 * 889523592379 % 0x1_0000_0000_0000_0000 / 0x10_0000_0000_0000
  }

  /** Every entry is a position before `ip`. */
  ghost predicate TableBehind(table: seq<nat>, t: TableType, ip: nat) {
    |table| == TableSize(t) && forall h :: 0 <= h < |table| ==> table[h] < ip
  }

  /** An entry for position `p`; a 16-bit entry holds it without truncation. */
  method PutIndex(table: array<nat>, t: TableType, h: nat, p: nat, ghost ip: nat)
    requires h < TableSize(t) && p < ip && TableBehind(table[..], t, ip) && (t.ByU16? ==> p < 0x1_0000)
    modifies table
    ensures TableBehind(table[..], t, ip) && table[..] == old(table[..])[h := p]
  {
    table[h] := if t.ByU16? then p % 0x1_0000 else p;
  }

  /** The bytes from `ip` up to `e` repeat the ones `offset` before, and the offset can be encoded. */
  ghost predicate Genuine(src: seq<byte>, ip: nat, e: nat, offset: nat) {
    && 1 <= offset <= ip && offset <= DISTANCE_MAX && ip <= e <= |src|
    && forall i :: ip <= i < e ==> src[i] == src[i - offset]
  }

  /** Equal four-byte loads make a match of four bytes. */
  lemma {:induction false} FourEqual(src: seq<byte>, ip: nat, match0: nat)
    requires match0 < ip && ip + 4 <= |src| && ip - match0 <= DISTANCE_MAX && Le32(src[match0..]) == Le32(src[ip..])
    ensures Genuine(src, ip, ip + 4, ip - match0)
  {
    Le32Injective(src[match0..], src[ip..]);
    forall i | ip <= i < ip + 4
      ensures src[i] == src[i - (ip - match0)]
    {
      assert src[match0..][..4][i - ip] == src[ip..][..4][i - ip];
    }
  }

  /** What holds of a table and the length of the input for either table type. */
  ghost predicate Suits(t: TableType, n: nat) {
    MIN_LENGTH <= n && (t.ByU16? ==> n < LIMIT_64K)
  }

  /** The entry for the bytes at `ip` is near enough and repeated by them. The small table needs no distance check: its
      positions are all below 65536. */
  ghost predicate Hit(src: seq<byte>, table: seq<nat>, t: TableType, ip: nat) {
    && ip + 8 <= |src|
    && var h := HashPosition(src, ip, t);
    && h < |table| && table[h] < ip && ip - table[h] <= 65535 && src[table[h]..table[h] + 4] == src[ip..ip + 4]
  }

  lemma {:induction false} UniformHits(src: seq<byte>, table: seq<nat>, t: TableType, ip: nat)
    requires Uniform(src) && TableBehind(table, t, ip) && (forall h :: 0 <= h < |table| ==> table[h] == 0)
    ensures 1 <= ip <= 65535 && ip + 8 <= |src| ==> Hit(src, table, t, ip)
  {
    hide HashPosition;
    if 1 <= ip && ip + 8 <= |src| {
      assert forall i :: 0 <= i < 4 ==> src[0..4][i] == src[ip..ip + 4][i];
      assert src[0..4] == src[ip..ip + 4];
    }
  }

  /** Looks up and replaces the entry for `ip`; a candidate is accepted exactly when it hits. */
  method Probe(src: seq<byte>, table: array<nat>, t: TableType, ip: nat, h: nat) returns (found: bool, match0: nat)
    requires Suits(t, |src|) && 1 <= ip && ip + MFLIMIT <= |src| && h == HashPosition(src, ip, t)
    requires TableBehind(table[..], t, ip)
    modifies table
    ensures TableBehind(table[..], t, ip + 1) && table[..] == old(table[..])[h := ip]
    ensures match0 == old(table[h]) && (found <==> Hit(src, old(table[..]), t, ip))
    ensures found ==> match0 < ip && Genuine(src, ip, ip + 4, ip - match0)
  {
    hide HashPosition, Le32, Genuine;
    EqualLoads(src, table[h], ip);
    match0 := table[h];
    PutIndex(table, t, h, ip, ip + 1);
    found := (t.ByU16? || match0 + DISTANCE_MAX >= ip) && Le32(src[match0..]) == Le32(src[ip..]);
    if found {
      FourEqual(src, ip, match0);
    }
  }

  /** The search: probes ever more distant positions until one matches or the end is too near. */
  method FindMatch(src: seq<byte>, table: array<nat>, t: TableType, ip0: nat, h0: nat, acceleration: nat)
    returns (found: bool, ip: nat, match0: nat)
    requires Suits(t, |src|) && 1 <= ip0 && ip0 + MFLIMIT <= |src| + 1 && h0 == HashPosition(src, ip0, t)
    requires acceleration >= 1 && TableBehind(table[..], t, ip0)
    modifies table
    ensures found ==> ip0 <= ip && ip + MFLIMIT <= |src| && match0 < ip && Genuine(src, ip, ip + 4, ip - match0)
    ensures found ==> TableBehind(table[..], t, ip + 1)
    ensures ip0 + MFLIMIT <= |src| && Hit(src, old(table[..]), t, ip0) ==> found && ip == ip0 && match0 == old(table[h0])
  {
    hide HashPosition, Genuine, Hit;
    var forwardIp, forwardH, step, searchMatchNb := ip0, h0, 1, acceleration * 64;
    ip, match0, found := ip0, 0, false;
    while true
      invariant ip0 <= forwardIp && forwardIp + MFLIMIT <= |src| + 1 && forwardH == HashPosition(src, forwardIp, t)
      invariant step >= 1 && searchMatchNb >= 64 && !found
      invariant TableBehind(table[..], t, forwardIp)
      invariant if forwardIp == ip0 then step == 1 && table[..] == old(table[..]) else !(ip0 + MFLIMIT <= |src| && Hit(src, old(table[..]), t, ip0))
      decreases |src| - forwardIp
    {
      var h := forwardH;
      ip := forwardIp;
      forwardIp := forwardIp + step;
      step := searchMatchNb / 64;
      searchMatchNb := searchMatchNb + 1;
      if forwardIp + MFLIMIT > |src| + 1 {
        return;
      }
      forwardH := HashPosition(src, forwardIp, t);
      found, match0 := Probe(src, table, t, ip, h);
      if found {
        return;
      }
      BehindLater(table[..], t, ip + 1, forwardIp);
    }
  }

  lemma {:induction false} BehindLater(table: seq<nat>, t: TableType, ip: nat, later: nat)
    requires TableBehind(table, t, ip) && ip <= later
    ensures TableBehind(table, t, later)
  {
  }

  /** Catching up: the match grows backwards over equal bytes. */
  method CatchUp(src: seq<byte>, anchor: nat, ip0: nat, match0: nat, ghost e: nat) returns (ip: nat, mat: nat)
    requires anchor < ip0 && match0 < ip0 && Genuine(src, ip0, e, ip0 - match0)
    ensures anchor <= ip <= ip0 && mat < ip && ip - mat == ip0 - match0 && Genuine(src, ip, e, ip - mat)
    ensures ip == anchor || mat == 0 || src[ip - 1] != src[mat - 1]
  {
    ip, mat := ip0, match0;
    while ip > anchor && mat > 0 && src[ip - 1] == src[mat - 1]
      invariant anchor <= ip <= ip0 && mat < ip && ip - mat == ip0 - match0 && Genuine(src, ip, e, ip - mat)
    {
      ip, mat := ip - 1, mat - 1;
    }
  }

  // ----- LZ4_count -----

  /** One eight-byte comparison of LZ4_count. */
  method CountWord(src: seq<byte>, p: nat, offset: nat) returns (same: bool, n: nat)
    requires 1 <= offset <= p && p + 8 <= |src|
    ensures same ==> Genuine8(src, p, p + 8, offset)
    ensures !same ==> n < 8 && src[p + n] != src[p + n - offset] && Genuine8(src, p, p + n, offset)
  {
    ghost var s, t := src[p - offset..p - offset + 8], src[p..p + 8];
    same, n := Lz4Words.CommonBytes(src[p - offset..p - offset + 8], src[p..p + 8]);
    forall i | p <= i < p + (if same then 8 else n)
      ensures src[i] == src[i - offset]
    {
      assert s[i - p] == t[i - p];
    }
    if !same {
      assert s[n] == src[p + n - offset] && t[n] == src[p + n];
    }
  }

  ghost predicate Genuine8(src: seq<byte>, p: nat, e: nat, offset: nat)
    requires offset <= p && e <= |src|
  {
    forall i :: p <= i < e ==> src[i] == src[i - offset]
  }

  /** One of the comparisons at the end of LZ4_count; moves on over an equal block. */
  method CountBlock(src: seq<byte>, ghost start: nat, p0: nat, offset: nat, width: nat) returns (p: nat)
    requires 1 <= offset <= start <= p0 && p0 + width <= |src| && Genuine8(src, start, p0, offset)
    ensures p <= |src| && Genuine8(src, start, p, offset) && (p == p0 + width || (p == p0 && !Genuine8(src, p0, p0 + width, offset)))
  {
    var same := src[p0 - offset..p0 - offset + width] == src[p0..p0 + width];
    ghost var s, t := src[p0 - offset..p0 - offset + width], src[p0..p0 + width];
    p := p0;
    if same {
      forall i | p0 <= i < p0 + width
        ensures src[i] == src[i - offset]
      {
        assert s[i - p0] == t[i - p0];
      }
      p := p0 + width;
    }
  }

  /** LZ4_count: exactly the length of the common prefix, capped at `limit`. */
  method Count(src: seq<byte>, start: nat, offset: nat, limit: nat) returns (n: nat)
    requires 1 <= offset <= start <= limit <= |src|
    ensures start + n <= limit && Genuine8(src, start, start + n, offset)
    ensures start + n < limit ==> src[start + n] != src[start + n - offset]
  {
    var p := start;
    while p + 7 < limit
      invariant start <= p <= limit && Genuine8(src, start, p, offset)
    {
      var same, k := CountWord(src, p, offset);
      if !same {
        return p + k - start;
      }
      p := p + 8;
    }
    p := CountTail(src, start, p, offset, limit);
    n := p - start;
  }

  /** Up to seven bytes: four, two and one at a time. */
  method CountTail(src: seq<byte>, ghost start: nat, p0: nat, offset: nat, limit: nat) returns (p: nat)
    requires 1 <= offset <= start <= p0 <= limit <= |src| && limit <= p0 + 7 && Genuine8(src, start, p0, offset)
    ensures p0 <= p <= limit && Genuine8(src, start, p, offset)
    ensures p < limit ==> src[p] != src[p - offset]
  {
    p := p0;
    if p + 3 < limit {
      p := CountBlock(src, start, p, offset, 4);
    }
    if p + 1 < limit {
      p := CountBlock(src, start, p, offset, 2);
    }
    if p < limit && src[p] == src[p - offset] {
      p := p + 1;
    }
  }

  // ----- how much is written -----

  /** Room enough for the compressed form of the first `n` bytes, without the final 16. */
  function Budget(n: nat): nat {
    n + n / 255
  }

  /** LZ4_compressBound. */
  function CompressBound(n: nat): nat {
    if n > MAX_INPUT_SIZE then 0 else Budget(n) + 16
  }

  /** The extra length bytes of a field. */
  function LengthSize(n: nat): (k: nat)
    ensures k == |LengthBytes(n)|
  {
    if n < 15 then 0 else (n - 15) / 255 + 1
  }

  /** A sequence never takes more than the budget of the bytes it covers. */
  lemma {:induction false} BudgetHolds(a: nat, n: nat, len: nat)
    requires len >= MINMATCH
    ensures Budget(a) + 3 + n + LengthSize(n) + LengthSize(len - MINMATCH) <= Budget(a + n + len)
  {
    hide LengthBytes;
  }

  /** The output position against the space: with a limit it is checked, without one it is budgeted. */
  ghost predicate Fits(limited: bool, op: nat, anchor: nat, n: nat, room: nat) {
    op <= room && (!limited ==> op <= Budget(anchor) && Budget(n) + 16 <= room)
  }

  lemma {:induction false} BudgetGrows(a: nat, b: nat)
    requires a <= b
    ensures Budget(a) + (b - a) <= Budget(b)
  {
  }

  // ----- emitting -----

  /** The loop that writes 255 until less is left, then the rest. */
  method EmitChain(dst: array<byte>, op0: nat, n: nat, room: nat) returns (op: nat)
    requires op0 + n / 255 + 1 <= room <= dst.Length
    modifies dst
    ensures Wrote(dst[..], op, old(dst[..]), op0, ChainBytes(n), room)
  {
    hide ChainBytes;
    ghost var s: seq<byte> := [];
    var left := n;
    op := op0;
    assert dst[..][..op0] + [] == dst[..][..op0];
    while left >= 255
      invariant op + left / 255 + 1 <= room
      invariant Wrote(dst[..], op, old(dst[..]), op0, s, room)
      invariant s + ChainBytes(left) == ChainBytes(n)
    {
      ghost var before := dst[..];
      ChainStep(s, left);
      Put(dst, op, [255], room);
      WroteBoth(old(dst[..]), before, dst[..], op0, op, op + 1, s, [255], room);
      op, left, s := op + 1, left - 255, s + [255];
    }
    ghost var before := dst[..];
    ChainStep(s, left);
    Put(dst, op, [left], room);
    WroteBoth(old(dst[..]), before, dst[..], op0, op, op + 1, s, [left], room);
    op := op + 1;
  }

  lemma {:induction false} ChainStep(s: seq<byte>, n: nat)
    ensures n < 255 ==> ChainBytes(n) == [n]
    ensures n >= 255 ==> s + [255] + ChainBytes(n - 255) == s + ChainBytes(n)
  {
    if n >= 255 {
      assert s + [255] + ChainBytes(n - 255) == s + ([255] + ChainBytes(n - 255));
    }
  }

  /** The match-length chain: four bytes of 255 per store, skipped over as far as they are meant. */
  method EmitMatchChain(dst: array<byte>, op0: nat, n: nat, room: nat) returns (op: nat)
    requires op0 + n / 255 + 4 <= room <= dst.Length
    modifies dst
    ensures Wrote(dst[..], op, old(dst[..]), op0, ChainBytes(n), room)
  {
    hide ChainBytes, Wrote;
    ghost var was, s := dst[..], [];
    var left := n;
    op := op0;
    WroteNothing(was, op0, room);
    PutMore(dst, was, op0, op, s, ONES, room);
    while left >= 4 * 255
      invariant op + left / 255 + 4 <= room && op == op0 + |s|
      invariant Wrote(dst[..], op + 4, was, op0, s + ONES, room)
      invariant s + ChainBytes(left) == ChainBytes(n)
    {
      FourSteps(s, left);
      op, left, s := op + 4, left - 4 * 255, s + ONES;
      PutMore(dst, was, op0, op, s, ONES, room);
    }
    op := FinishMatchChain(dst, was, op0, op, s, left, room);
    ChainStart(left);
    assert s + ONES[..left / 255] + [left % 255] == s + ChainBytes(left);
  }

  method FinishMatchChain(dst: array<byte>, ghost was: seq<byte>, ghost op0: nat, op1: nat, ghost s: seq<byte>, left: nat, room: nat)
    returns (op: nat)
    requires left < 4 * 255 && op1 + 4 <= room <= dst.Length && op1 == op0 + |s| && Wrote(dst[..], op1 + 4, was, op0, s + ONES, room)
    modifies dst
    ensures Wrote(dst[..], op, was, op0, s + ONES[..left / 255] + [left % 255], room)
  {
    hide Wrote;
    WrotePrefix(dst[..], was, op0, op1, s, left / 255, room);
    op := op1 + left / 255;
    ghost var before := dst[..];
    Put(dst, op, [left % 255], room);
    WroteBoth(was, before, dst[..], op0, op, op + 1, s + ONES[..left / 255], [left % 255], room);
    op := op + 1;
  }

  const ONES: seq<byte> := [255, 255, 255, 255]

  lemma {:induction false} WroteNothing(was: seq<byte>, op: nat, room: nat)
    requires op <= room <= |was|
    ensures Wrote(was, op, was, op, [], room)
  {
    assert was[..op] + [] == was[..op];
  }

  /** Taking back some of the four bytes just stored. */
  lemma {:induction false} WrotePrefix(now: seq<byte>, was: seq<byte>, op0: nat, op: nat, s: seq<byte>, k: nat, room: nat)
    requires Wrote(now, op + 4, was, op0, s + ONES, room) && k <= 4 && op == op0 + |s|
    ensures Wrote(now, op + k, was, op0, s + ONES[..k], room)
  {
    assert now[..op + k] == now[..op + 4][..op + k];
  }

  lemma {:induction false} FourSteps(s: seq<byte>, n: nat)
    requires n >= 4 * 255
    ensures s + ONES + ChainBytes(n - 4 * 255) == s + ChainBytes(n)
  {
    hide ChainBytes;
    ChainStep([], n); ChainStep([], n - 255); ChainStep([], n - 2 * 255); ChainStep([], n - 3 * 255);
    assert s + ONES + ChainBytes(n - 4 * 255) == s + ([] + [255] + ([] + [255] + ([] + [255] + ([] + [255] + ChainBytes(n - 4 * 255)))));
    assert forall t: seq<byte> :: [] + t == t;
  }

  lemma {:induction false} ChainStart(n: nat)
    requires n < 4 * 255
    ensures ChainBytes(n) == ONES[..n / 255] + [n % 255]
    decreases n
  {
    hide ChainBytes;
    ChainStep([], n);
    if n >= 255 {
      ChainStart(n - 255);
      assert [] + [255] + ChainBytes(n - 255) == ONES[..n / 255] + [n % 255];
      assert [] + ChainBytes(n) == ChainBytes(n);
    }
  }

  lemma {:induction false} PlacedWrote(now: seq<byte>, was: seq<byte>, op: nat, lits: seq<byte>, slackEnd: nat, room: nat)
    requires LiteralsPlaced(now, was, op, lits, slackEnd) && slackEnd <= room <= |was|
    ensures Wrote(now, op + |lits|, was, op, lits, room)
  {
  }

  /** A token for the literals, their length and, from `op` on, room for the literals. */
  method EmitLiteralLength(dst: array<byte>, op0: nat, n: nat, room: nat) returns (op: nat)
    requires op0 + 1 + LengthSize(n) <= room <= dst.Length
    modifies dst
    ensures Wrote(dst[..], op, old(dst[..]), op0, [Nibble(n) * 16] + LengthBytes(n), room)
  {
    hide ChainBytes, Wrote;
    ghost var was := dst[..];
    Put(dst, op0, [Nibble(n) * 16], room);
    op := op0 + 1;
    ghost var token: seq<byte> := [Nibble(n) * 16];
    if n >= 15 {
      ghost var before := dst[..];
      op := EmitChain(dst, op0 + 1, n - 15, room);
      WroteBoth(was, before, dst[..], op0, op0 + 1, op, token, ChainBytes(n - 15), room);
    } else {
      assert token + [] == token;
    }
  }

  /** Token, length and overshooting literal copy of a sequence; fails only when there is a limit. */
  method EncodeLiterals(src: seq<byte>, dst: array<byte>, op0: nat, anchor: nat, ip: nat, limited: bool, room: nat)
    returns (ok: bool, op: nat)
    requires anchor <= ip && ip + MFLIMIT <= |src| && room <= dst.Length && Fits(limited, op0, anchor, |src|, room)
    modifies dst
    ensures !ok ==> limited && op0 + 9 + (ip - anchor) + (ip - anchor) / 255 > room
    ensures ok ==> Wrote(dst[..], op, old(dst[..]), op0, LastBytes(src[anchor..ip]), room) && op + 7 <= room
    ensures SameFrom(dst[..], old(dst[..]), room)
  {
    hide Wrote, LengthBytes, LiteralsPlaced;
    ghost var was := dst[..];
    var n := ip - anchor;
    op := op0;
    if limited && op + 1 + n + (2 + 1 + LASTLITERALS) + n / 255 > room {
      return false, op;
    }
    LiteralRoom(limited, op0, anchor, n, |src|, room);
    op := EmitLiteralLength(dst, op0, n, room);
    ghost var before := dst[..];
    WrotePosition(before, op, was, op0, [Nibble(n) * 16] + LengthBytes(n), room);
    WildLiterals(dst, op, src, anchor, n, 8);
    PlacedWrote(dst[..], before, op, src[anchor..ip], Overshoot(op, n, 8), room);
    WroteBoth(was, before, dst[..], op0, op, op + n, [Nibble(n) * 16] + LengthBytes(n), src[anchor..ip], room);
    op := op + n;
    WrotePosition(dst[..], op, was, op0, LastBytes(src[anchor..ip]), room);
    ok := true;
  }

  lemma {:induction false} LiteralRoom(limited: bool, op: nat, anchor: nat, n: nat, size: nat, room: nat)
    requires Fits(limited, op, anchor, size, room) && anchor + n + MFLIMIT <= size
    requires limited ==> op + 1 + n + (2 + 1 + LASTLITERALS) + n / 255 <= room
    ensures op + 1 + LengthSize(n) + n + 7 <= room && op + 1 + LengthSize(n) + 8 <= room
  {
    hide LengthBytes;
    BudgetGrows(anchor, anchor + n);
    BudgetGrows(anchor + n, size);
  }

  lemma {:induction false} WrotePosition(now: seq<byte>, op: nat, was: seq<byte>, from: nat, s: seq<byte>, room: nat)
    requires Wrote(now, op, was, from, s, room)
    ensures op == from + |s| && SameFrom(now, was, room) && now[..op] == was[..from] + s
  {
  }

  /** Adding the match nibble to the token turns the bytes written so far into a sequence. */
  lemma {:induction false} TokenPatched(done: seq<byte>, lits: seq<byte>, offset: nat, len: nat)
    requires 1 <= offset <= DISTANCE_MAX && len >= MINMATCH
    ensures var s := done + LastBytes(lits) + (Le16Bytes(offset) + LengthBytes(len - MINMATCH));
      s[|done| := Nibble(|lits|) * 16 + Nibble(len - MINMATCH)] == done + SequenceBytes(lits, offset, len)
    ensures (done + LastBytes(lits))[|done|] == Nibble(|lits|) * 16
  {
    hide LengthBytes, Le16Bytes, Nibble;
  }

  lemma {:induction false} LastSize(lits: seq<byte>)
    ensures |LastBytes(lits)| == 1 + LengthSize(|lits|) + |lits|
  {
    hide LengthBytes;
  }

  /** The match-length chain of LZ4HC_encodeSequence: two bytes of 255 at a time. */
  method EmitPairChain(dst: array<byte>, op0: nat, n: nat, room: nat) returns (op: nat)
    requires op0 + n / 255 + 1 <= room <= dst.Length
    modifies dst
    ensures Wrote(dst[..], op, old(dst[..]), op0, ChainBytes(n), room)
  {
    hide ChainBytes, Wrote;
    ghost var was, s := dst[..], [];
    var left := n;
    op := op0;
    WroteNothing(was, op0, room);
    while left >= 510
      invariant op + left / 255 + 1 <= room && op == op0 + |s|
      invariant Wrote(dst[..], op, was, op0, s, room)
      invariant s + ChainBytes(left) == ChainBytes(n)
    {
      PairSteps(s, left);
      PutMore(dst, was, op0, op, s, [255, 255], room);
      op, left, s := op + 2, left - 510, s + [255, 255];
    }
    ghost var whole := s + ChainBytes(left);
    ChainStep(s, left);
    if left >= 255 {
      PutMore(dst, was, op0, op, s, [255], room);
      op, left, s := op + 1, left - 255, s + [255];
      ChainStep(s, left);
    }
    PutMore(dst, was, op0, op, s, [left], room);
    op := op + 1;
  }

  method PutMore(dst: array<byte>, ghost was: seq<byte>, ghost op0: nat, op: nat, ghost s: seq<byte>, t: seq<byte>, room: nat)
    requires op + |t| <= room <= dst.Length && Wrote(dst[..], op, was, op0, s, room)
    modifies dst
    ensures Wrote(dst[..], op + |t|, was, op0, s + t, room)
  {
    ghost var before := dst[..];
    Put(dst, op, t, room);
    WroteBoth(was, before, dst[..], op0, op, op + |t|, s, t, room);
  }

  lemma {:induction false} PairSteps(s: seq<byte>, n: nat)
    requires n >= 510
    ensures s + [255, 255] + ChainBytes(n - 510) == s + ChainBytes(n)
  {
    hide ChainBytes;
    ChainStep([], n);
    ChainStep([], n - 255);
    assert s + [255, 255] + ChainBytes(n - 510) == s + ([] + [255] + ([] + [255] + ChainBytes(n - 510)));
    assert forall t: seq<byte> :: [] + t == t;
  }

  /** The offset and the match length behind literals already written, and the patched token; four or two
      bytes of the length at a time. */
  method EncodeOffsetAndLength(dst: array<byte>, op0: nat, token: nat, ghost done: seq<byte>, ghost lits: seq<byte>,
                               offset: nat, len: nat, quads: bool, room: nat)
    returns (op: nat)
    requires 1 <= offset <= DISTANCE_MAX && len >= MINMATCH
    requires op0 + 2 + (len - MINMATCH) / 255 + 4 <= room <= dst.Length
    requires token == |done| && dst[..op0] == done + LastBytes(lits)
    modifies dst
    ensures op <= room && dst[..op] == done + SequenceBytes(lits, offset, len)
    ensures SameFrom(dst[..], old(dst[..]), room)
  {
    hide Wrote, LengthBytes, Le16Bytes, SequenceBytes, LastBytes, Nibble;
    ghost var was := dst[..];
    Put(dst, op0, Le16Bytes(offset), room);
    op := op0 + 2;
    if len - MINMATCH >= 15 {
      ghost var before := dst[..];
      if quads {
        op := EmitMatchChain(dst, op, len - MINMATCH - 15, room);
      } else {
        op := EmitPairChain(dst, op, len - MINMATCH - 15, room);
      }
      MoreLength(len - MINMATCH);
      WroteBoth(was, before, dst[..], op0, op0 + 2, op, Le16Bytes(offset), LengthBytes(len - MINMATCH), room);
    } else {
      NoMoreLength(offset, len - MINMATCH);
    }
    WrotePosition(dst[..], op, was, op0, Le16Bytes(offset) + LengthBytes(len - MINMATCH), room);
    TokenPatched(done, lits, offset, len);
    assert was[..op0] == done + LastBytes(lits);
    PatchToken(dst, op, token, done, lits, offset, len);
  }

  lemma {:induction false} NoMoreLength(offset: nat, n: nat)
    requires offset <= DISTANCE_MAX && n < 15
    ensures Le16Bytes(offset) + LengthBytes(n) == Le16Bytes(offset)
  {
  }

  lemma {:induction false} MoreLength(n: nat)
    requires n >= 15
    ensures LengthBytes(n) == ChainBytes(n - 15)
  {
  }

  method PatchToken(dst: array<byte>, op: nat, token: nat, ghost done: seq<byte>, ghost lits: seq<byte>, ghost offset: nat, len: nat)
    requires 1 <= offset <= DISTANCE_MAX && len >= MINMATCH && token == |done| && op <= dst.Length
    requires dst[..op] == done + LastBytes(lits) + (Le16Bytes(offset) + LengthBytes(len - MINMATCH))
    modifies dst
    ensures dst[..op] == done + SequenceBytes(lits, offset, len)
    ensures SameFrom(dst[..], old(dst[..]), op)
  {
    hide LengthBytes, Le16Bytes, SequenceBytes, Nibble, LastBytes;
    TokenPatched(done, lits, offset, len);
    ghost var was := dst[..op];
    assert |LastBytes(lits)| >= 1;
    assert was[token] == (done + LastBytes(lits))[token];
    dst[token] := dst[token] + Nibble(len - MINMATCH);
    assert dst[..op] == was[token := Nibble(|lits|) * 16 + Nibble(len - MINMATCH)];
  }

  /** _next_match: the whole match behind pending literals. The match ends exactly where the bytes stop
      repeating or five bytes before the end. */
  method EncodeMatch(src: seq<byte>, dst: array<byte>, op0: nat, token: nat, ghost done: seq<byte>, ghost anchor: nat,
                     ip: nat, mat: nat, limited: bool, room: nat)
    returns (ok: bool, op: nat, e: nat)
    requires mat < ip && Genuine(src, ip, ip + MINMATCH, ip - mat) && ip + MFLIMIT <= |src| && anchor <= ip
    requires Fits(limited, token, anchor, |src|, room) && op0 + 2 <= room <= dst.Length
    requires token == |done| && dst[..op0] == done + LastBytes(src[anchor..ip])
    modifies dst
    ensures !ok ==> limited && op0 + 8 + (e - ip - 4 + 240) / 255 > room
    ensures ip + MINMATCH <= e && e + LASTLITERALS <= |src| && Genuine(src, ip, e, ip - mat)
    ensures e + LASTLITERALS == |src| || src[e] != src[e - (ip - mat)]
    ensures ok ==> Fits(limited, op, e, |src|, room) && op + 6 <= room
    ensures ok ==> dst[..op] == done + SequenceBytes(src[anchor..ip], ip - mat, e - ip)
    ensures SameFrom(dst[..], old(dst[..]), room)
  {
    hide Budget, Achieved;
    hide SequenceBytes, LastBytes, LengthBytes;
    ghost var lits := src[anchor..ip];
    var matchCode := Count(src, ip + MINMATCH, ip - mat, |src| - LASTLITERALS);
    e := ip + MINMATCH + matchCode;
    op := op0;
    if limited && op + 2 + (1 + LASTLITERALS) + (matchCode + 240) / 255 > room {
      return false, op, e;
    }
    LastSize(lits);
    SequenceSize(lits, ip - mat, e - ip);
    BudgetHolds(anchor, |lits|, e - ip);
    BudgetGrows(e, |src|);
    MatchRoom(limited, op, token, |lits|, matchCode, |src|, room, anchor);
    op := EncodeOffsetAndLength(dst, op, token, done, lits, ip - mat, e - ip, true, room);
    ok := true;
  }

  lemma {:induction false} SequenceSize(lits: seq<byte>, offset: nat, len: nat)
    requires 1 <= offset <= DISTANCE_MAX && len >= MINMATCH
    ensures |SequenceBytes(lits, offset, len)| == 3 + |lits| + LengthSize(|lits|) + LengthSize(len - MINMATCH)
  {
    hide LengthBytes;
  }

  lemma {:induction false} MatchRoom(limited: bool, op: nat, token: nat, n: nat, matchCode: nat, size: nat, room: nat, anchor: nat)
    requires op == token + 1 + LengthSize(n) + n
    requires limited ==> op + 2 + (1 + LASTLITERALS) + (matchCode + 240) / 255 <= room
    requires !limited ==> token <= Budget(anchor) && Budget(size) + 16 <= room
    requires Budget(anchor) + 3 + n + LengthSize(n) + LengthSize(matchCode) <= Budget(size)
    ensures op + 2 + matchCode / 255 + 4 <= room && op + 2 + LengthSize(matchCode) + 6 <= room
  {
    hide LengthBytes, Budget;
  }

  // ----- the compressor -----

  /** A finished sequence extends what has been achieved. */
  lemma {:induction false} SequenceMade(src: seq<byte>, done: seq<byte>, anchor: nat, ip: nat, e: nat, offset: nat, cap: nat)
    requires anchor <= ip && ip + MFLIMIT <= |src| <= cap && ip + MINMATCH <= e && e + LASTLITERALS <= |src|
    requires Genuine(src, ip, e, offset) && Achieved(done, src[..anchor], cap)
    ensures Achieved(done + SequenceBytes(src[anchor..ip], offset, e - ip), src[..e], cap)
  {
    hide SequenceBytes, Achieved, LzCopy;
    SequenceAchieved(done, src[..anchor], src[anchor..ip], offset, e - ip, cap);
    assert src[..anchor] + src[anchor..ip] == src[..ip];
    GenuineMatch(src, ip, offset, e - ip);
  }

  /** What the compressor does after a match: give up, write the last literals, or search on. */
  datatype Flow = GiveUp | Close | SearchOn

  /** Behind pending literals: a found match and all matches that follow it directly. */
  method EmitMatches(src: seq<byte>, dst: array<byte>, table: array<nat>, t: TableType, op0: nat, token0: nat, ghost done0: seq<byte>,
                     anchor0: nat, ip0: nat, mat0: nat, ghost filledIp: nat, limited: bool, room: nat, ghost cap: nat)
    returns (flow: Flow, op: nat, anchor: nat)
    requires Suits(t, |src|) && |src| <= cap && op0 + 2 <= room <= dst.Length
    requires anchor0 <= ip0 <= filledIp && filledIp + MFLIMIT <= |src| && mat0 < ip0 && Genuine(src, ip0, filledIp + MINMATCH, ip0 - mat0)
    requires token0 == |done0| && Fits(limited, token0, anchor0, |src|, room) && Achieved(done0, src[..anchor0], cap)
    requires dst[..op0] == done0 + LastBytes(src[anchor0..ip0])
    requires TableBehind(table[..], t, filledIp + 1)
    modifies dst, table
    ensures flow == GiveUp ==> limited
    ensures flow != GiveUp ==> anchor0 < anchor && anchor + LASTLITERALS <= |src| && Fits(limited, op, anchor, |src|, room)
    ensures flow != GiveUp ==> Achieved(dst[..op], src[..anchor], cap)
    ensures flow == SearchOn ==> anchor + MFLIMIT <= |src| && TableBehind(table[..], t, anchor + 1)
    ensures Uniform(src) && flow == GiveUp ==> op0 + 8 + (|src| - ip0 - 9 + 240) / 255 > room
    ensures Uniform(src) && flow != GiveUp ==>
      flow == Close && anchor == |src| - 5 && op == token0 + 3 + (ip0 - anchor0) + LengthSize(ip0 - anchor0) + LengthSize(|src| - ip0 - 9)
    ensures SameFrom(dst[..], old(dst[..]), room)
  {
    hide Achieved, HashPosition, LastBytes, SequenceBytes, TableBehind, Suits, Genuine, LengthSize;
    var ip, mat: nat, token := ip0, mat0, token0;
    op, anchor := op0, anchor0;
    ghost var done, filled := done0, filledIp;
    var ok: bool;
    while true
      invariant anchor0 <= anchor <= ip <= filled && filled + MFLIMIT <= |src| && mat < ip && Genuine(src, ip, filled + MINMATCH, ip - mat)
      invariant token == |done| && Fits(limited, token, anchor, |src|, room) && op + 2 <= room
      invariant dst[..op] == done + LastBytes(src[anchor..ip]) && Achieved(done, src[..anchor], cap)
      invariant TableBehind(table[..], t, filled + 1)
      invariant Uniform(src) ==> ip == ip0 && anchor == anchor0 && token == token0 && op == op0
      invariant SameFrom(dst[..], old(dst[..]), room)
      decreases |src| - ip
    {
      var e: nat;
      ok, op, e := MatchTurn(src, dst, op, token, done, anchor, ip, mat, filled, limited, room, cap);
      if !ok {
        return GiveUp, op, anchor;
      }
      anchor := e;
      if e + MFLIMIT > |src| {
        return Close, op, anchor;
      }
      var found: bool;
      found, mat := TestNext(src, table, t, e, filled);
      if !found {
        return SearchOn, op, anchor;
      }
      done, token, ip, filled := dst[..op], op, e, e;
      dst[op] := 0;
      op := op + 1;
      EmptyLiterals(dst[..op], done, src, ip);
    }
  }

  /** A match written behind its literals: one more sequence achieved, and the table stays behind. */
  method MatchTurn(src: seq<byte>, dst: array<byte>, op0: nat, token: nat, ghost done: seq<byte>, ghost anchor: nat,
                   ip: nat, mat: nat, ghost filled: nat, limited: bool, room: nat, ghost cap: nat)
    returns (ok: bool, op: nat, e: nat)
    requires anchor <= ip <= filled && filled + MFLIMIT <= |src| <= cap && mat < ip && Genuine(src, ip, filled + MINMATCH, ip - mat)
    requires token == |done| && Fits(limited, token, anchor, |src|, room) && op0 + 2 <= room <= dst.Length
    requires dst[..op0] == done + LastBytes(src[anchor..ip]) && Achieved(done, src[..anchor], cap)
    modifies dst
    ensures !ok ==> limited && op0 + 8 + (e - ip - 4 + 240) / 255 > room
    ensures ip + MINMATCH <= e && e + LASTLITERALS <= |src| && (e + LASTLITERALS == |src| || src[e] != src[e - (ip - mat)])
    ensures ok ==> filled + MINMATCH <= e && Fits(limited, op, e, |src|, room) && op + 6 <= room
    ensures ok ==> op == token + 3 + (ip - anchor) + LengthSize(ip - anchor) + LengthSize(e - ip - 4)
    ensures ok ==> Achieved(dst[..op], src[..e], cap)
    ensures SameFrom(dst[..], old(dst[..]), room)
  {
    hide Achieved, LastBytes, SequenceBytes, Fits, LengthSize;
    ok, op, e := EncodeMatch(src, dst, op0, token, done, anchor, ip, mat, limited, room);
    SequenceSize(src[anchor..ip], ip - mat, e - ip);
    if ok {
      assert |dst[..op]| == op;
      SequenceMade(src, done, anchor, ip, e, ip - mat, cap);
      BehindMatch(src, ip, e, ip - mat, filled);
    }
  }

  /** Enters the position two bytes before the end of a match and probes the end itself. */
  method TestNext(src: seq<byte>, table: array<nat>, t: TableType, e: nat, ghost filled: nat) returns (found: bool, mat: nat)
    requires Suits(t, |src|) && filled + MINMATCH <= e && e + MFLIMIT <= |src| && TableBehind(table[..], t, filled + 1)
    modifies table
    ensures TableBehind(table[..], t, e + 1)
    ensures found ==> mat < e && Genuine(src, e, e + MINMATCH, e - mat)
    ensures var was := old(table[..])[HashPosition(src, e - 2, t) := e - 2];
      mat == was[HashPosition(src, e, t)] && (found <==> Hit(src, was, t, e))
  {
    hide HashPosition, TableBehind, Hit;
    BehindLater(table[..], t, filled + 1, e);
    PutIndex(table, t, HashPosition(src, e - 2, t), e - 2, e);
    found, mat := Probe(src, table, t, e, HashPosition(src, e, t));
  }

  /** A match runs at least four bytes past the last position entered in the table. */
  lemma {:induction false} BehindMatch(src: seq<byte>, ip: nat, e: nat, offset: nat, filled: nat)
    requires Genuine(src, ip, filled + MINMATCH, offset) && filled + MFLIMIT <= |src| && ip <= e && e + LASTLITERALS <= |src|
    requires e + LASTLITERALS == |src| || src[e] != src[e - offset]
    ensures filled + MINMATCH <= e
  {
  }

  lemma {:induction false} EmptyLiterals(out: seq<byte>, done: seq<byte>, src: seq<byte>, ip: nat)
    requires out == done + [0] && ip <= |src|
    ensures out == done + LastBytes(src[ip..ip])
  {
    assert src[ip..ip] == [];
    assert LastBytes([]) == [0];
  }

  /** _last_literals: everything from the anchor on, copied exactly. */
  method EncodeLastLiterals(src: seq<byte>, dst: array<byte>, op0: nat, anchor: nat, limited: bool, room: nat, ghost cap: nat)
    returns (r: nat)
    requires anchor <= |src| <= cap && (op0 > 0 ==> anchor + LASTLITERALS <= |src|)
    requires Fits(limited, op0, anchor, |src|, room) && room <= dst.Length && Achieved(dst[..op0], src[..anchor], cap)
    modifies dst
    ensures r <= room && (r == 0 ==> limited && op0 + (|src| - anchor) + 1 + (|src| - anchor + 240) / 255 > room)
    ensures r > 0 ==> Expand(dst[..r], []) == Some(src) && Strict(dst[..r], 0, cap) && r == op0 + 1 + LengthSize(|src| - anchor) + (|src| - anchor)
    ensures SameFrom(dst[..], old(dst[..]), room)
  {
    hide Achieved, Wrote, LastBytes, LengthBytes, LiteralsPlaced, Expand, Strict;
    ghost var was := dst[..];
    var n := |src| - anchor;
    if limited && op0 + n + 1 + (n + 240) / 255 > room {
      return 0;
    }
    ghost var lits := src[anchor..];
    LastRoom(limited, op0, anchor, n, |src|, room);
    LastSize(lits);
    r := EmitLiteralLength(dst, op0, n, room);
    ghost var before := dst[..];
    ghost var head := [Nibble(n) * 16] + LengthBytes(n);
    WrotePosition(before, r, was, op0, head, room);
    ExactLiterals(dst, r, src, anchor, n);
    assert src[anchor..anchor + n] == lits;
    PlacedWrote(dst[..], before, r, lits, r + n, room);
    WroteBoth(was, before, dst[..], op0, r, r + n, head, lits, room);
    r := r + n;
    JoinLast(lits);
    WrotePosition(dst[..], r, was, op0, LastBytes(lits), room);
    LastAchieved(was[..op0], src[..anchor], lits, cap);
    assert src[..anchor] + lits == src;
    assert was[..op0] == old(dst[..op0]);
  }

  lemma {:induction false} JoinLast(lits: seq<byte>)
    ensures [Nibble(|lits|) * 16] + LengthBytes(|lits|) + lits == LastBytes(lits)
  {
  }

  lemma {:induction false} LastRoom(limited: bool, op: nat, anchor: nat, n: nat, size: nat, room: nat)
    requires Fits(limited, op, anchor, size, room) && anchor + n == size
    requires limited ==> op + n + 1 + (n + 240) / 255 <= room
    ensures op + 1 + LengthSize(n) + n <= room
  {
    hide LengthBytes;
  }

  /** LZ4_compress_generic_validated without a dictionary. */
  method CompressGeneric(src: seq<byte>, dst: array<byte>, t: TableType, limited: bool, room: nat, acceleration: nat, ghost cap: nat)
    returns (r: nat)
    requires 0 < |src| <= cap && room <= dst.Length && acceleration >= 1 && (t.ByU16? ==> |src| < LIMIT_64K)
    requires !limited ==> Budget(|src|) + 16 <= room
    modifies dst
    ensures r <= room && (r == 0 ==> limited)
    ensures r > 0 ==> Expand(dst[..r], []) == Some(src) && Strict(dst[..r], 0, cap)
    ensures Uniform(src) && |src| >= 13 && room >= 12 + |src| / 255 ==> 0 < r <= 11 + |src| / 255
    ensures SameFrom(dst[..], old(dst[..]), room)
  {
    hide Achieved, HashPosition, Expand, Strict, TableBehind, Uniform;
    var op: nat, anchor: nat := 0, 0;
    NothingAchieved(cap);
    assert dst[..0] == [] && src[..0] == [];
    if |src| >= MIN_LENGTH {
      var table := new nat[TableSize(t)](_ => 0);
      FreshTable(table[..], t);
      PutIndex(table, t, HashPosition(src, 0, t), 0, 1);
      var ip, flow := 1, SearchOn;
      while flow == SearchOn
        invariant flow == GiveUp ==> limited
        invariant flow == SearchOn ==> anchor <= ip - 1 && ip + MFLIMIT <= |src| + 1 && TableBehind(table[..], t, ip)
        invariant flow != GiveUp ==> Fits(limited, op, anchor, |src|, room) && anchor + LASTLITERALS <= |src|
        invariant flow != GiveUp ==> Achieved(dst[..op], src[..anchor], cap)
        invariant Uniform(src) && flow == SearchOn ==> op == 0 && anchor == 0 && ip == 1 && forall h :: 0 <= h < table.Length ==> table[h] == 0
        invariant Uniform(src) && flow != SearchOn ==> if flow == GiveUp then room < 12 + |src| / 255 else anchor == |src| - 5 && op <= 5 + |src| / 255
        invariant SameFrom(dst[..], old(dst[..]), room)
        decreases flow == SearchOn, |src| - anchor
      {
        flow, op, anchor, ip := SearchAndEmit(src, dst, table, t, op, anchor, ip, limited, room, acceleration, cap);
      }
      if flow == GiveUp {
        return 0;
      }
    }
    r := EncodeLastLiterals(src, dst, op, anchor, limited, room, cap);
  }

  lemma {:induction false} FreshTable(table: seq<nat>, t: TableType)
    requires |table| == TableSize(t) && forall h :: 0 <= h < |table| ==> table[h] == 0
    ensures TableBehind(table, t, 1)
  {
  }

  /** One turn of the main loop: search, catch up, emit. */
  method SearchAndEmit(src: seq<byte>, dst: array<byte>, table: array<nat>, t: TableType, op0: nat, anchor0: nat, ip0: nat,
                       limited: bool, room: nat, acceleration: nat, ghost cap: nat)
    returns (flow: Flow, op: nat, anchor: nat, next: nat)
    requires Suits(t, |src|) && |src| <= cap && room <= dst.Length && acceleration >= 1
    requires anchor0 < ip0 && ip0 + MFLIMIT <= |src| + 1 && TableBehind(table[..], t, ip0)
    requires Fits(limited, op0, anchor0, |src|, room) && anchor0 + LASTLITERALS <= |src| && Achieved(dst[..op0], src[..anchor0], cap)
    modifies dst, table
    ensures flow == GiveUp ==> limited
    ensures flow == SearchOn ==> anchor0 < anchor < next && next + MFLIMIT <= |src| + 1 && TableBehind(table[..], t, next)
    ensures flow != GiveUp ==> Fits(limited, op, anchor, |src|, room) && anchor + LASTLITERALS <= |src|
    ensures flow != GiveUp ==> Achieved(dst[..op], src[..anchor], cap)
    ensures Uniform(src) && anchor0 == 0 && ip0 == 1 && op0 == 0 && (forall h :: 0 <= h < table.Length ==> old(table[h]) == 0) ==>
      if flow == GiveUp then room < 12 + |src| / 255 else flow == Close && anchor == |src| - 5 && op <= 5 + |src| / 255
    ensures SameFrom(dst[..], old(dst[..]), room)
  {
    hide Achieved, HashPosition, TableBehind, Genuine, LastBytes, Wrote, Hit, Uniform, LengthBytes;
    if Uniform(src) && (forall h :: 0 <= h < table.Length ==> table[h] == 0) {
      UniformHits(src, table[..], t, ip0);
    }
    var found, ip, mat := FindMatch(src, table, t, ip0, HashPosition(src, ip0, t), acceleration);
    if !found {
      return Close, op0, anchor0, ip0;
    }
    ghost var filledIp := ip;
    ip, mat := CatchUp(src, anchor0, ip, mat, filledIp + MINMATCH);
    ghost var was := dst[..];
    var ok;
    ok, op := EncodeLiterals(src, dst, op0, anchor0, ip, limited, room);
    if !ok {
      return GiveUp, op, anchor0, ip;
    }
    WrotePosition(dst[..], op, was, op0, LastBytes(src[anchor0..ip]), room);
    LastSize(src[anchor0..ip]);
    assert was[..op0] == old(dst[..op0]);
    flow, op, anchor := EmitMatches(src, dst, table, t, op, op0, was[..op0], anchor0, ip, mat, filledIp, limited, room, cap);
    next := anchor + 1;
  }

  /** LZ4_compress_fast_extState on a fresh state: the choice of table, of the limit check and of the
      acceleration. `cap` is any output size the block will be decoded into. */
  method CompressFast(src: seq<byte>, dst: array<byte>, maxOutputSize: nat, acceleration0: int, ghost cap: nat) returns (r: nat)
    requires maxOutputSize <= dst.Length && |src| <= cap
    modifies dst
    ensures r <= maxOutputSize
    ensures r > 0 ==> Expand(dst[..r], []) == Some(src) && Strict(dst[..r], 0, cap)
    ensures |src| <= MAX_INPUT_SIZE && maxOutputSize >= CompressBound(|src|) ==> r > 0
    ensures Uniform(src) && 13 <= |src| <= MAX_INPUT_SIZE && maxOutputSize >= 12 + |src| / 255 ==> 0 < r <= 11 + |src| / 255
    ensures SameFrom(dst[..], old(dst[..]), maxOutputSize)
  {
    hide Expand, Strict, Uniform;
    var acceleration := if acceleration0 < 1 then 1 else if acceleration0 > ACCELERATION_MAX then ACCELERATION_MAX else acceleration0;
    var limited := maxOutputSize < CompressBound(|src|);
    if |src| > MAX_INPUT_SIZE {
      return 0;
    }
    if |src| == 0 {
      if limited && maxOutputSize == 0 {
        return 0;
      }
      dst[0] := 0;
      assert dst[..1] == [0] && src == [];
      EmptyAccepted(cap);
      return 1;
    }
    r := CompressGeneric(src, dst, if |src| < LIMIT_64K then ByU16 else ByU32, limited, maxOutputSize, acceleration, cap);
  }

  lemma {:induction false} EmptyAccepted(cap: nat)
    ensures Expand([0], []) == Some([]) && Strict([0], 0, cap)
  {
    hide Expand, Strict;
    ExpandLast([], [], cap);
    assert LastBytes([]) == [0];
    var nothing: seq<byte> := [];
    assert nothing + nothing == [];
  }

  /** Compressing and safely decompressing into any buffer large enough restores the input. */
  method RoundTrip(src: seq<byte>, packed: array<byte>, maxOutputSize: nat, acceleration: int, unpacked: array<byte>, cap: nat)
    returns (r: nat, n: int)
    requires maxOutputSize <= packed.Length && |src| <= cap <= unpacked.Length && packed != unpacked
    modifies packed, unpacked
    ensures r <= maxOutputSize && (r > 0 ==> n == |src| && unpacked[..n] == src)
    ensures |src| <= 2113929216 && maxOutputSize >= |src| + |src| / 255 + 16 ==> r > 0
  {
    hide Expand, Strict;
    r := CompressFast(src, packed, maxOutputSize, acceleration, cap);
    n := Lz4Decoder.Decompress(packed[..r], unpacked, cap);
  }
}
