// The LZ4 block format: the output a block stands for, the parsing restrictions a block must
// respect to be accepted, and what the compressors write.

module Lz4Format {
  import opened Bytes
  import opened LzCopies

  const MINMATCH := 4
  const LASTLITERALS := 5
  const MFLIMIT := 12
  const DISTANCE_MAX := 65535

  datatype Option<T> = None | Some(value: T)

  // ----- reading -----

  /** A decoded length and the bytes behind it. */
  datatype Length = Broken | Length(n: nat, rest: seq<byte>)

  /** Bytes of 255 add up until a smaller byte ends the sum. */
  function ReadSum(rest: seq<byte>): (l: Length)
    ensures l.Length? ==> |l.rest| < |rest|
  {
    if rest == [] then Broken
    else if rest[0] == 255 then
      match ReadSum(rest[1..])
      case Broken => Broken
      case Length(n, r) => Length(255 + n, r)
    else Length(rest[0], rest[1..])
  }

  /** A four-bit length field, continued by a sum when it is 15. */
  function ReadLength(nibble: nat, rest: seq<byte>): (l: Length)
    ensures l.Length? ==> |l.rest| <= |rest|
  {
    if nibble == 15 then
      match ReadSum(rest)
      case Broken => Broken
      case Length(n, r) => Length(15 + n, r)
    else Length(nibble, rest)
  }

  /** A match: an LZ copy; the offset 0, which no compressor writes, stands for zero bytes. */
  function Repeat(out: seq<byte>, offset: nat, len: nat): (r: seq<byte>)
    requires offset <= |out|
    ensures |r| == |out| + len
  {
    if offset == 0 then out + seq(len, _ => 0) else LzCopy(out, offset, len)
  }

  /** The output of the sequences in `rest` after `out`; None when they are malformed. */
  function Expand(rest: seq<byte>, out: seq<byte>): Option<seq<byte>>
    decreases |rest|, 3
  {
    if rest == [] then None
    else
      match ReadLength(rest[0] / 16, rest[1..])
      case Broken => None
      case Length(n, r) => ExpandLiterals(rest[0], n, r, out)
  }

  function ExpandLiterals(token: byte, n: nat, rest: seq<byte>, out: seq<byte>): Option<seq<byte>>
    decreases |rest|, 2
  {
    if n > |rest| then None
    else if n == |rest| then Some(out + rest)
    else ExpandOffset(token, rest[n..], out + rest[..n])
  }

  function ExpandOffset(token: byte, rest: seq<byte>, out: seq<byte>): Option<seq<byte>>
    decreases |rest|, 1
  {
    if |rest| < 2 then None
    else
      match ReadLength(token % 16, rest[2..])
      case Broken => None
      case Length(m, r) => ExpandMatch(Le16(rest), m + MINMATCH, r, out)
  }

  function ExpandMatch(offset: nat, len: nat, rest: seq<byte>, out: seq<byte>): Option<seq<byte>>
    decreases |rest|, 4
  {
    if offset > |out| then None else Expand(rest, Repeat(out, offset, len))
  }

  // ----- the parsing restrictions, for an output buffer of `cap` bytes holding `op` so far -----

  ghost predicate Strict(rest: seq<byte>, op: nat, cap: nat)
    decreases |rest|, 3
  {
    && rest != []
    && var l := ReadLength(rest[0] / 16, rest[1..]);
    && l.Length?
    && StrictLiterals(rest[0], l.n, l.rest, op, cap)
  }

  /** Only the last sequence may come near either end, and it has literals only; into no room at all it
      has the token 0. */
  ghost predicate StrictLiterals(token: byte, n: nat, rest: seq<byte>, op: nat, cap: nat)
    decreases |rest|, 2
  {
    if n >= |rest| then n == |rest| && op + n <= cap && (cap == 0 ==> token == 0)
    else op + n + MFLIMIT <= cap && |rest| - n >= 2 + 1 + LASTLITERALS && StrictOffset(token, rest[n..], op + n, cap)
  }

  ghost predicate StrictOffset(token: byte, rest: seq<byte>, op: nat, cap: nat)
    decreases |rest|, 1
  {
    && |rest| >= 2
    && var l := ReadLength(token % 16, rest[2..]);
    && l.Length?
    && StrictMatch(Le16(rest), l.n + MINMATCH, l.rest, op, cap)
  }

  ghost predicate StrictMatch(offset: nat, len: nat, rest: seq<byte>, op: nat, cap: nat)
    decreases |rest|, 4
  {
    && offset <= op && op + len + LASTLITERALS <= cap && |rest| >= LASTLITERALS - 1
    && Strict(rest, op + len, cap)
  }

  // ----- writing -----

  function Nibble(n: nat): (v: nat)
    ensures v <= 15
  {
    if n < 15 then n else 15
  }

  function LengthBytes(n: nat): seq<byte> {
    if n < 15 then [] else ChainBytes(n - 15)
  }

  /** Literals, then a match of `len` bytes at distance `offset`. */
  function SequenceBytes(lits: seq<byte>, offset: nat, len: nat): (s: seq<byte>)
    requires 1 <= offset <= DISTANCE_MAX && len >= MINMATCH
    ensures |s| >= |lits| + 3
  {
    [Nibble(|lits|) * 16 + Nibble(len - MINMATCH)] + LengthBytes(|lits|) + lits + Le16Bytes(offset) + LengthBytes(len - MINMATCH)
  }

  /** The final run of literals. */
  function LastBytes(lits: seq<byte>): (s: seq<byte>)
    ensures |s| >= |lits| + 1
  {
    [Nibble(|lits|) * 16] + LengthBytes(|lits|) + lits
  }

  // ----- reading back -----

  lemma {:induction false} SumStep(rest: seq<byte>)
    requires rest != []
    ensures rest[0] < 255 ==> ReadSum(rest) == Length(rest[0], rest[1..])
    ensures rest[0] == 255 && ReadSum(rest[1..]).Length? ==>
      ReadSum(rest) == Length(255 + ReadSum(rest[1..]).n, ReadSum(rest[1..]).rest)
  {
  }

  lemma {:induction false} SumRoundTrip(n: nat, after: seq<byte>)
    ensures ReadSum(ChainBytes(n) + after) == Length(n, after)
    decreases n
  {
    hide ReadSum;
    var rest := ChainBytes(n) + after;
    SumStep(rest);
    if n < 255 {
      assert rest == [n as byte] + after;
    } else {
      SumRoundTrip(n - 255, after);
      assert rest == [255] + (ChainBytes(n - 255) + after);
    }
  }

  lemma {:induction false} LengthRoundTrip(n: nat, after: seq<byte>)
    ensures ReadLength(Nibble(n), LengthBytes(n) + after) == Length(n, after)
  {
    hide ReadSum, ChainBytes;
    if n < 15 {
      assert [] + after == after;
    } else {
      SumRoundTrip(n - 15, after);
    }
  }

  /** The bytes of a sequence, taken apart from the front. */
  lemma {:induction false} SequenceParts(lits: seq<byte>, offset: nat, len: nat, tail: seq<byte>)
    requires 1 <= offset <= DISTANCE_MAX && len >= MINMATCH
    ensures var s := SequenceBytes(lits, offset, len) + tail;
      var after := Le16Bytes(offset) + (LengthBytes(len - MINMATCH) + tail);
      && s[0] == Nibble(|lits|) * 16 + Nibble(len - MINMATCH)
      && ReadLength(s[0] / 16, s[1..]) == Length(|lits|, lits + after)
      && ReadLength(s[0] % 16, after[2..]) == Length(len - MINMATCH, tail)
      && Le16(after) == offset && |after| >= 2 + |tail|
  {
    hide ReadLength, LengthBytes, Le16Bytes, Le16;
    var s := SequenceBytes(lits, offset, len) + tail;
    var after := Le16Bytes(offset) + (LengthBytes(len - MINMATCH) + tail);
    assert s[1..] == LengthBytes(|lits|) + (lits + after);
    assert after[2..] == LengthBytes(len - MINMATCH) + tail;
    LengthRoundTrip(|lits|, lits + after);
    LengthRoundTrip(len - MINMATCH, tail);
    Le16Prefix(Le16Bytes(offset), LengthBytes(len - MINMATCH) + tail);
  }

  lemma {:induction false} Le16Prefix(two: seq<byte>, more: seq<byte>)
    requires |two| == 2
    ensures Le16(two + more) == Le16(two)
  {
  }

  /** Expanding a written sequence continues with the literals and the copy produced. */
  lemma {:induction false} ExpandSequence(lits: seq<byte>, offset: nat, len: nat, tail: seq<byte>, out: seq<byte>)
    requires 1 <= offset <= DISTANCE_MAX && offset <= |out| + |lits| && len >= MINMATCH
    ensures Expand(SequenceBytes(lits, offset, len) + tail, out) == Expand(tail, LzCopy(out + lits, offset, len))
  {
    hide ReadLength, LengthBytes, Le16Bytes, Le16, SequenceBytes, LzCopy;
    SequenceParts(lits, offset, len, tail);
    var s := SequenceBytes(lits, offset, len) + tail;
    var after := Le16Bytes(offset) + (LengthBytes(len - MINMATCH) + tail);
    var rest := lits + after;
    assert rest[|lits|..] == after && rest[..|lits|] == lits;
    assert Expand(s, out) == ExpandLiterals(s[0], |lits|, rest, out) == ExpandOffset(s[0], after, out + lits);
    assert ExpandOffset(s[0], after, out + lits) == ExpandMatch(offset, len, tail, out + lits);
  }

  /** A written sequence respects the restrictions when it keeps away from the end of the output. */
  lemma {:induction false} StrictSequence(lits: seq<byte>, offset: nat, len: nat, tail: seq<byte>, op: nat, cap: nat)
    requires 1 <= offset <= DISTANCE_MAX && offset <= op + |lits| && len >= MINMATCH
    requires op + |lits| + MFLIMIT <= cap && op + |lits| + len + LASTLITERALS <= cap
    requires |tail| >= 1 + LASTLITERALS && Strict(tail, op + |lits| + len, cap)
    ensures Strict(SequenceBytes(lits, offset, len) + tail, op, cap)
  {
    hide ReadLength, LengthBytes, Le16Bytes, Le16, SequenceBytes;
    SequenceParts(lits, offset, len, tail);
    var s := SequenceBytes(lits, offset, len) + tail;
    var after := Le16Bytes(offset) + (LengthBytes(len - MINMATCH) + tail);
    var rest := lits + after;
    assert rest[|lits|..] == after;
    assert StrictMatch(offset, len, tail, op + |lits|, cap);
    assert StrictOffset(s[0], after, op + |lits|, cap);
    assert StrictLiterals(s[0], |lits|, rest, op, cap);
  }

  lemma {:induction false} LastParts(lits: seq<byte>)
    ensures var s := LastBytes(lits); |s| >= 1 && s[0] == Nibble(|lits|) * 16 && ReadLength(s[0] / 16, s[1..]) == Length(|lits|, lits)
  {
    hide ReadLength, LengthBytes;
    var s := LastBytes(lits);
    assert s[1..] == LengthBytes(|lits|) + lits;
    LengthRoundTrip(|lits|, lits);
  }

  /** The last run completes the output. */
  lemma {:induction false} ExpandLast(lits: seq<byte>, out: seq<byte>, cap: nat)
    ensures Expand(LastBytes(lits), out) == Some(out + lits)
    ensures |out| + |lits| <= cap ==> Strict(LastBytes(lits), |out|, cap)
  {
    hide ReadLength, LengthBytes, LastBytes;
    LastParts(lits);
  }

  // ----- what a compressor has achieved so far -----

  /** Whatever follows `done` is expanded after `made`; and it stays acceptable if what follows is. */
  ghost predicate Achieved(done: seq<byte>, made: seq<byte>, cap: nat) {
    && (forall tail: seq<byte> {:trigger Expand(done + tail, [])} :: Expand(done + tail, []) == Expand(tail, made))
    && (forall tail: seq<byte> {:trigger Strict(done + tail, 0, cap)} ::
      (done == [] || |tail| >= 1 + LASTLITERALS) && Strict(tail, |made|, cap) ==> Strict(done + tail, 0, cap))
  }

  lemma {:induction false} NothingAchieved(cap: nat)
    ensures Achieved([], [], cap)
  {
    hide Expand, Strict;
    assert forall tail: seq<byte> :: [] + tail == tail;
  }

  lemma {:induction false} SequenceAchieved(done: seq<byte>, made: seq<byte>, lits: seq<byte>, offset: nat, len: nat, cap: nat)
    requires Achieved(done, made, cap)
    requires 1 <= offset <= DISTANCE_MAX && offset <= |made| + |lits| && len >= MINMATCH
    requires |made| + |lits| + MFLIMIT <= cap && |made| + |lits| + len + LASTLITERALS <= cap
    ensures Achieved(done + SequenceBytes(lits, offset, len), LzCopy(made + lits, offset, len), cap)
  {
    hide Expand, Strict, SequenceBytes, LzCopy;
    var s := SequenceBytes(lits, offset, len);
    forall tail: seq<byte>
      ensures Expand(done + s + tail, []) == Expand(tail, LzCopy(made + lits, offset, len))
    {
      assert done + s + tail == done + (s + tail);
      ExpandSequence(lits, offset, len, tail, made);
    }
    forall tail: seq<byte> | |tail| >= 1 + LASTLITERALS && Strict(tail, |made| + |lits| + len, cap)
      ensures Strict(done + s + tail, 0, cap)
    {
      assert done + s + tail == done + (s + tail);
      StrictSequence(lits, offset, len, tail, |made|, cap);
    }
  }

  /** Closing with the last literals: the block expands to everything and respects the restrictions. */
  lemma {:induction false} LastAchieved(done: seq<byte>, made: seq<byte>, lits: seq<byte>, cap: nat)
    requires Achieved(done, made, cap) && |made| + |lits| <= cap && (done == [] || |lits| >= LASTLITERALS)
    ensures Expand(done + LastBytes(lits), []) == Some(made + lits)
    ensures Strict(done + LastBytes(lits), 0, cap)
  {
    hide Expand, Strict;
    ExpandLast(lits, made, cap);
  }
}
