// LZ4 blocks byte by byte, in numbers: what any list of sequences and last literals looks like,
// what it stands for, and when the decoder takes it.

module Lz4Blocks {
  import opened Bytes
  import opened Stores
  import opened LzCopies
  import opened Lz4Format
  import Lz4Decoder

  /** Literals, then `len` bytes from `off` back. */
  datatype Sequence = Sequence(lits: seq<byte>, off: nat, len: nat)

  /** A count continued behind a full half of the token. */
  function Continued(n: nat): (s: seq<byte>) {
    seq(n / 255, _ => 255) + [n % 255]
  }

  predicate Writable(s: Sequence) {
    1 <= s.off <= 65535 && 4 <= s.len
  }

  function SequenceOf(s: Sequence): seq<byte>
    requires Writable(s)
  {
    var n := |s.lits|;
    [16 * (if n < 15 then n else 15) + (if s.len < 19 then s.len - 4 else 15)]
    + (if n < 15 then [] else Continued(n - 15)) + s.lits
    + [s.off % 256, s.off / 256]
    + (if s.len < 19 then [] else Continued(s.len - 19))
  }

  function LastOf(last: seq<byte>): seq<byte> {
    [if |last| < 15 then 16 * |last| else 240] + (if |last| < 15 then [] else Continued(|last| - 15)) + last
  }

  predicate AllWritable(parts: seq<Sequence>) {
    forall i :: 0 <= i < |parts| ==> Writable(parts[i])
  }

  /** The output of the sequences: each match copies from what is there behind its literals. */
  function Made(parts: seq<Sequence>): (r: Option<seq<byte>>)
    requires AllWritable(parts)
  {
    if parts == [] then Some([])
    else
      var p := parts[|parts| - 1];
      match Made(parts[..|parts| - 1])
      case None => None
      case Some(out) => if p.off <= |out| + |p.lits| then Some(LzCopy(out + p.lits, p.off, p.len)) else None
  }

  function Heads(parts: seq<Sequence>): seq<byte>
    requires AllWritable(parts)
  {
    if parts == [] then [] else Heads(parts[..|parts| - 1]) + SequenceOf(parts[|parts| - 1])
  }

  // ----- the same bytes as the format's -----

  lemma {:induction false} ContinuedChain(n: nat)
    ensures ChainBytes(n) == Continued(n)
    decreases n
  {
    if n >= 255 {
      ContinuedChain(n - 255);
      assert n / 255 == (n - 255) / 255 + 1 && n % 255 == (n - 255) % 255;
      assert Continued(n) == [255] + Continued(n - 255);
    } else {
      assert Continued(n) == [n];
    }
  }

  lemma {:induction false} CountWritten(n: nat)
    ensures LengthBytes(n) == if n < 15 then [] else Continued(n - 15)
  {
    hide Continued, ChainBytes;
    if n >= 15 {
      ContinuedChain(n - 15);
    }
  }

  lemma {:induction false} SequenceWritten(s: Sequence)
    requires Writable(s)
    ensures s.off <= DISTANCE_MAX && s.len >= MINMATCH && SequenceBytes(s.lits, s.off, s.len) == SequenceOf(s)
  {
    hide Continued, ChainBytes, LengthBytes;
    CountWritten(|s.lits|);
    CountWritten(s.len - 4);
    assert Le16Bytes(s.off) == [s.off % 256, s.off / 256];
  }

  lemma {:induction false} LastWritten(last: seq<byte>)
    ensures LastBytes(last) == LastOf(last)
  {
    hide Continued, ChainBytes, LengthBytes;
    CountWritten(|last|);
  }

  // ----- what a list of sequences stands for -----

  /** The last match starts twelve bytes or more before the end of the room and ends five or more before it. */
  predicate KeepsAway(parts: seq<Sequence>, cap: nat)
    requires AllWritable(parts) && Made(parts).Some?
  {
    parts == [] || (var n := |Made(parts).value|; n + 5 <= cap && n - parts[|parts| - 1].len + 12 <= cap)
  }

  lemma {:induction false} HeadsAchieved(parts: seq<Sequence>, cap: nat)
    requires AllWritable(parts) && Made(parts).Some? && KeepsAway(parts, cap)
    ensures Achieved(Heads(parts), Made(parts).value, cap)
    decreases |parts|
  {
    hide Achieved, SequenceOf, LzCopy, SequenceBytes;
    if parts == [] {
      NothingAchieved(cap);
    } else {
      var init, p := parts[..|parts| - 1], parts[|parts| - 1];
      var out := Made(init).value;
      HeadsAchieved(init, cap);
      SequenceWritten(p);
      SequenceAchieved(Heads(init), out, p.lits, p.off, p.len, cap);
    }
  }

  /** Whatever follows, the sequences expand as made, or not at all; and they are taken only if the last match
      keeps away from the end. */
  lemma {:induction false} HeadsTaken(parts: seq<Sequence>, tail: seq<byte>, cap: nat)
    requires AllWritable(parts)
    ensures var m := Made(parts); Expand(Heads(parts) + tail, []) == if m.Some? then Expand(tail, m.value) else None
    ensures Strict(Heads(parts) + tail, 0, cap) ==> Made(parts).Some? && KeepsAway(parts, cap) && Strict(tail, |Made(parts).value|, cap)
    decreases |parts|
  {
    hide SequenceOf, LzCopy, Expand, Strict;
    if parts == [] {
      assert [] + tail == tail;
    } else {
      var init, p := parts[..|parts| - 1], parts[|parts| - 1];
      var s := SequenceOf(p);
      HeadsTaken(init, s + tail, cap);
      assert Heads(parts) + tail == Heads(init) + (s + tail);
      if Made(init).Some? {
        OneTaken(p, tail, Made(init).value, cap);
      }
    }
  }

  lemma {:induction false} OneTaken(p: Sequence, tail: seq<byte>, out: seq<byte>, cap: nat)
    requires Writable(p)
    ensures var n := |out| + |p.lits|;
      && Expand(SequenceOf(p) + tail, out) == (if p.off <= n then Expand(tail, LzCopy(out + p.lits, p.off, p.len)) else None)
      && (Strict(SequenceOf(p) + tail, |out|, cap) ==> p.off <= n && n + 12 <= cap && n + p.len + 5 <= cap && Strict(tail, n + p.len, cap))
  {
    hide ReadLength, LengthBytes, Le16Bytes, Le16, SequenceBytes, LzCopy, SequenceOf;
    var offset, len := p.off, p.len;
    SequenceWritten(p);
    SequenceParts(p.lits, offset, len, tail);
    var s := SequenceOf(p) + tail;
    var after := Le16Bytes(offset) + (LengthBytes(len - MINMATCH) + tail);
    var rest := p.lits + after;
    assert rest[|p.lits|..] == after && rest[..|p.lits|] == p.lits;
    assert Expand(s, out) == ExpandLiterals(s[0], |p.lits|, rest, out) == ExpandOffset(s[0], after, out + p.lits);
    assert ExpandOffset(s[0], after, out + p.lits) == ExpandMatch(offset, len, tail, out + p.lits);
    if Strict(s, |out|, cap) {
      assert StrictLiterals(s[0], |p.lits|, rest, |out|, cap);
      assert StrictOffset(s[0], after, |out| + |p.lits|, cap);
      assert StrictMatch(offset, len, tail, |out| + |p.lits|, cap);
    }
  }

  lemma {:induction false} LastTaken(last: seq<byte>, out: seq<byte>, cap: nat)
    ensures Expand(LastOf(last), out) == Some(out + last)
    ensures Strict(LastOf(last), |out|, cap) ==> |out| + |last| <= cap
  {
    hide ReadLength, LengthBytes, LastBytes, LastOf;
    LastWritten(last);
    ExpandLast(last, out, cap);
    LastParts(last);
    var s := LastOf(last);
    if Strict(s, |out|, cap) {
      assert StrictLiterals(s[0], |last|, last, |out|, cap);
    }
  }

  /** Any number of sequences, with counts of any length: the block stands for the output of its sequences with
      the last literals behind. It is acceptable when there is room for that and the last match keeps away
      from the end, and in no other case. */
  lemma {:induction false} BlockMeans(parts: seq<Sequence>, last: seq<byte>, cap: nat)
    requires AllWritable(parts)
    ensures var block, m := Heads(parts) + LastOf(last), Made(parts);
      && Expand(block, []) == (if m.Some? then Some(m.value + last) else None)
      && (Strict(block, 0, cap) ==> m.Some? && |m.value| + |last| <= cap && KeepsAway(parts, cap))
      && (m.Some? && |m.value| + |last| <= cap && KeepsAway(parts, cap) && (parts == [] || |last| >= 5) ==> Strict(block, 0, cap))
  {
    hide Achieved, LastOf, Strict, Expand, LastBytes, KeepsAway;
    HeadsTaken(parts, LastOf(last), cap);
    if Made(parts).Some? {
      var out := Made(parts).value;
      LastTaken(last, out, cap);
      if |out| + |last| <= cap && KeepsAway(parts, cap) && (parts == [] || |last| >= 5) {
        HeadsAchieved(parts, cap);
        LastWritten(last);
        LastAchieved(Heads(parts), out, last, cap);
      }
    }
  }

  /** LZ4_decompress_safe on such a block: it returns the size of the output, which is in place, and refuses
      neither a block whose last match keeps away from the end nor, with less than 32 bytes of room, any other. */
  method DecompressBlock(parts: seq<Sequence>, last: seq<byte>, dst: array<byte>, cap: nat) returns (r: int)
    requires AllWritable(parts) && cap <= dst.Length
    modifies dst
    ensures r >= 0 ==> Made(parts).Some? && r == |Made(parts).value| + |last| <= cap && dst[..r] == Made(parts).value + last
    ensures Made(parts).Some? && |Made(parts).value| + |last| <= cap && KeepsAway(parts, cap) && (parts == [] || |last| >= 5) ==> r >= 0
    ensures r >= 0 && cap < 32 ==> KeepsAway(parts, cap)
    ensures SameFrom(dst[..], old(dst[..]), cap)
  {
    hide Expand, Strict, Heads, LastOf, KeepsAway;
    BlockMeans(parts, last, cap);
    r := Lz4Decoder.Decompress(Heads(parts) + LastOf(last), dst, cap);
    assert r >= 0 ==> |dst[..r]| == r;
  }

  lemma {:induction false} OnePart(p: Sequence)
    requires Writable(p)
    ensures Heads([p]) == SequenceOf(p)
    ensures Made([p]) == if p.off <= |p.lits| then Some(LzCopy(p.lits, p.off, p.len)) else None
  {
    hide SequenceOf, LzCopy;
    var parts := [p];
    var none: seq<Sequence> := [];
    assert parts[..0] == none && Made(none) == Some([]) && Heads(none) == [];
    assert [] + p.lits == p.lits;
  }

  /** One sequence with short counts into room for its output and no more: five bytes of framing. */
  lemma {:induction false} ShortBlock(lits: seq<byte>, off: nat, len: nat, last: seq<byte>)
    requires |lits| < 15 && |last| < 15 && 4 <= len < 19 && 1 <= off <= 65535
    ensures var block, cap := [16 * |lits| + len - 4] + lits + [off % 256, off / 256] + [16 * |last|] + last, |lits| + len + |last|;
      && Expand(block, []) == (if off <= |lits| then Some(LzCopy(lits, off, len) + last) else None)
      && (Strict(block, 0, cap) <==> off <= |lits| && |last| >= 5 && len + |last| >= 12)
  {
    hide Expand, Strict, LzCopy, Heads, Made, Continued;
    var p := Sequence(lits, off, len);
    OnePart(p);
    BlockMeans([p], last, |lits| + len + |last|);
    var head: byte, low: byte, high: byte, end: byte := 16 * |lits| + len - 4, off % 256, off / 256, 16 * |last|;
    assert SequenceOf(p) == [head] + lits + [low, high];
    assert LastOf(last) == [end] + last;
    assert [head] + lits + [low, high] + ([end] + last) == [head] + lits + [low, high] + [end] + last;
  }
}
