// Bytes, little-endian words and the byte-at-a-time LZ copy shared by every codec.

module Bytes {
  type byte = x: int | 0 <= x < 0x100

  const INT_MAX := 0x7FFF_FFFF

  /** What an int32_t holds after a computation whose exact result is `x`, with two's complement wrap-around. */
  function Int32(x: int): (v: int)
    ensures -0x8000_0000 <= v <= INT_MAX
  {
    (x + 0x8000_0000) % 0x1_0000_0000 - 0x8000_0000
  }

  lemma {:induction false} Int32Fits(x: int)
    requires -0x8000_0000 <= x <= INT_MAX
    ensures Int32(x) == x
  {
  }

  /** Wrapping on the way does not matter. */
  lemma {:induction false} Int32Adds(x: int, y: int)
    ensures Int32(Int32(x) + y) == Int32(x + y)
  {
  }

  /** Little-endian 16-bit load of the first two bytes. */
  function Le16(s: seq<byte>): (v: nat)
    requires |s| >= 2
    ensures v < 0x1_0000
  {
    s[0] as int + 0x100 * (s[1] as int)
  }

  function Le16Bytes(v: nat): (s: seq<byte>)
    requires v < 0x1_0000
    ensures |s| == 2 && Le16(s) == v
  {
    [v % 0x100, v / 0x100]
  }

  /** Little-endian 32-bit load of the first four bytes. */
  function Le32(s: seq<byte>): (v: nat)
    requires |s| >= 4
    ensures v < 0x1_0000_0000
  {
    s[0] as int + 0x100 * (s[1] as int) + 0x1_0000 * (s[2] as int) + 0x100_0000 * (s[3] as int)
  }

  /** A length written as bytes of 255 followed by a smaller byte. */
  function ChainBytes(n: nat): (s: seq<byte>)
    ensures |s| == n / 255 + 1
  {
    if n < 255 then [n] else [255] + ChainBytes(n - 255)
  }

  /** Equal 32-bit loads mean equal bytes. */
  lemma {:induction false} Le32Injective(s: seq<byte>, t: seq<byte>)
    requires |s| >= 4 && |t| >= 4 && Le32(s) == Le32(t)
    ensures s[..4] == t[..4]
  {
    var x, y := s[1] as int + 0x100 * (s[2] as int + 0x100 * (s[3] as int)), t[1] as int + 0x100 * (t[2] as int + 0x100 * (t[3] as int));
    LowByte(s[0], x, t[0], y);
    LowByte(s[1], s[2] as int + 0x100 * (s[3] as int), t[1], t[2] as int + 0x100 * (t[3] as int));
    LowByte(s[2], s[3], t[2], t[3]);
  }

  lemma {:induction false} Le32Agrees(s: seq<byte>, t: seq<byte>)
    requires |s| >= 4 && |t| >= 4 && s[..4] == t[..4]
    ensures Le32(s) == Le32(t)
  {
    assert forall i :: 0 <= i < 4 ==> s[i] == s[..4][i] && t[i] == t[..4][i];
  }

  /** Four bytes are equal exactly when their loads are. */
  lemma {:induction false} EqualLoads(s: seq<byte>, p: nat, q: nat)
    requires p + 4 <= |s| && q + 4 <= |s|
    ensures Le32(s[p..]) == Le32(s[q..]) <==> s[p..p + 4] == s[q..q + 4]
  {
    hide Le32;
    assert s[p..][..4] == s[p..p + 4] && s[q..][..4] == s[q..q + 4];
    if Le32(s[p..]) == Le32(s[q..]) {
      Le32Injective(s[p..], s[q..]);
    }
    if s[p..p + 4] == s[q..q + 4] {
      Le32Agrees(s[p..], s[q..]);
    }
  }

  /** One byte over and over. */
  ghost predicate Uniform(s: seq<byte>) {
    forall i, j :: 0 <= i < j < |s| ==> s[i] == s[j]
  }

  lemma {:induction false} LowByte(a: byte, x: int, b: byte, y: int)
    requires a + 0x100 * x == b + 0x100 * y
    ensures a == b && x == y
  {
  }
}

/** The meaning of an LZ77 match: each byte repeats the one `dist` places before it. */
module LzCopies {
  function LzCopy<T>(out: seq<T>, dist: nat, len: nat): (r: seq<T>)
    requires 1 <= dist <= |out|
    ensures |r| == |out| + len && r[..|out|] == out
    ensures forall i :: |out| <= i < |r| ==> r[i] == r[i - dist]
    decreases len
  {
    if len == 0 then out else LzCopy(out + [out[|out| - dist]], dist, len - 1)
  }

  /** `r` is `out` followed by `len` bytes that each repeat the byte `dist` before. */
  ghost predicate IsLzCopy<T>(r: seq<T>, out: seq<T>, dist: nat, len: nat)
    requires 1 <= dist <= |out|
  {
    && |r| == |out| + len
    && r[..|out|] == out
    && forall i :: |out| <= i < |r| ==> r[i] == r[i - dist]
  }

  /** The repeating property pins the bytes down, so block-wise copiers can be compared with LzCopy. */
  lemma {:induction false} LzCopyUnique<T>(r: seq<T>, out: seq<T>, dist: nat, len: nat)
    requires 1 <= dist <= |out| && IsLzCopy(r, out, dist, len)
    ensures r == LzCopy(out, dist, len)
    decreases len
  {
    if len == 0 {
    } else {
      var next := out + [out[|out| - dist]];
      assert r[|out|] == r[|out| - dist] == r[..|out|][|out| - dist];
      assert r[..|next|] == next;
      LzCopyUnique(r, next, dist, len - 1);
    }
  }

  /** A match whose source bytes equal its target bytes extends the reproduced prefix of `src`. */
  lemma {:induction false} GenuineMatch<T>(src: seq<T>, pos: nat, dist: nat, len: nat)
    requires 1 <= dist <= pos && pos + len <= |src|
    requires forall i :: pos <= i < pos + len ==> src[i] == src[i - dist]
    ensures LzCopy(src[..pos], dist, len) == src[..pos + len]
  {
    var r := src[..pos + len];
    assert r[..pos] == src[..pos];
    LzCopyUnique(r, src[..pos], dist, len);
  }
}

/** Stores into an output buffer. */
module Stores {
  import opened Bytes

  /** Nothing from `limit` on has changed. */
  ghost predicate SameFrom(now: seq<byte>, was: seq<byte>, limit: nat) {
    |now| == |was| && forall i :: limit <= i < |now| ==> now[i] == was[i]
  }

  /** The part of `now` before `op` is `was` before `from` followed by `s`; nothing from `limit` on changed. */
  ghost predicate Wrote(now: seq<byte>, op: nat, was: seq<byte>, from: nat, s: seq<byte>, limit: nat) {
    && |now| == |was| && from <= |was| && op == from + |s| <= limit <= |now|
    && now[..op] == was[..from] + s
    && forall i :: limit <= i < |now| ==> now[i] == was[i]
  }

  lemma {:induction false} WroteBoth(a: seq<byte>, b: seq<byte>, c: seq<byte>, from: nat, mid: nat, op: nat,
                                     s: seq<byte>, t: seq<byte>, limit: nat)
    requires Wrote(b, mid, a, from, s, limit) && Wrote(c, op, b, mid, t, limit)
    ensures Wrote(c, op, a, from, s + t, limit)
  {
    assert c[..op] == a[..from] + s + t == a[..from] + (s + t);
  }

  /** `dest` with `piece` at `at`. */
  function Overwrite(dest: seq<byte>, at: nat, piece: seq<byte>): (r: seq<byte>)
    requires at + |piece| <= |dest|
    ensures |r| == |dest|
    ensures forall i :: 0 <= i < |r| ==> r[i] == if at <= i < at + |piece| then piece[i - at] else dest[i]
  {
    dest[..at] + piece + dest[at + |piece|..]
  }

  /** Consecutive single-byte stores. */
  method Put(output: array<byte>, op: nat, s: seq<byte>, ghost limit: nat)
    requires op + |s| <= limit <= output.Length
    modifies output
    ensures Wrote(output[..], op + |s|, old(output[..]), op, s, limit)
  {
    forall i | op <= i < op + |s| {
      output[i] := s[i - op];
    }
    assert output[..][..op + |s|] == old(output[..])[..op] + s;
  }
}
