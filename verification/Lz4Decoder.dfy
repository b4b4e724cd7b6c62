// LZ4_decompress_safe: the fast loop, the two-stage shortcut and the careful tail, joined by
// the points at which the source jumps from one to another.

module Lz4Decoder {
  import opened Bytes
  import opened Stores
  import opened Lz4Format
  import opened Lz4Copies

  /** Where decoding stands inside a sequence; the source's jump targets. */
  datatype Point = NextToken | AtLiterals(token: byte, n: nat) | AtOffset(token: byte) | AtMatch(offset: nat, len: nat)

  datatype Exit = Failed | Finished | Resume(p: Point)

  /** The result of decoding on from a point. */
  ghost function Outcome(p: Point, rest: seq<byte>, out: seq<byte>): Option<seq<byte>> {
    match p
    case NextToken => Expand(rest, out)
    case AtLiterals(token, n) => ExpandLiterals(token, n, rest, out)
    case AtOffset(token) => ExpandOffset(token, rest, out)
    case AtMatch(offset, len) => ExpandMatch(offset, len, rest, out)
  }

  /** The parsing restrictions from a point on. */
  ghost predicate Acceptable(p: Point, rest: seq<byte>, op: nat, cap: nat) {
    match p
    case NextToken => Strict(rest, op, cap)
    case AtLiterals(token, n) => StrictLiterals(token, n, rest, op, cap)
    case AtOffset(token) => StrictOffset(token, rest, op, cap)
    case AtMatch(offset, len) => StrictMatch(offset, len, rest, op, cap)
  }

  /** A correct piece of decoding: it neither changes the outcome nor refuses what is acceptable. With less
      than 32 bytes of room, where no shortcut is taken, nothing else is accepted either. */
  ghost predicate Advances(p: Point, rest: seq<byte>, out: seq<byte>, exit: Exit, rest': seq<byte>, out': seq<byte>, cap: nat) {
    && (exit.Finished? ==> Outcome(p, rest, out) == Some(out'))
    && (exit.Resume? ==> Outcome(p, rest, out) == Outcome(exit.p, rest', out'))
    && (Acceptable(p, rest, |out|, cap) ==> !exit.Failed? && (exit.Resume? ==> Acceptable(exit.p, rest', |out'|, cap)))
    && (0 < cap < 32 && (exit.Finished? || (exit.Resume? && Acceptable(exit.p, rest', |out'|, cap))) ==> Acceptable(p, rest, |out|, cap))
  }

  lemma {:induction false} AdvancesJoin(p: Point, rest: seq<byte>, out: seq<byte>, q: Point, rest1: seq<byte>, out1: seq<byte>,
                                        exit: Exit, rest2: seq<byte>, out2: seq<byte>, cap: nat)
    requires Advances(p, rest, out, Resume(q), rest1, out1, cap) && Advances(q, rest1, out1, exit, rest2, out2, cap)
    ensures Advances(p, rest, out, exit, rest2, out2, cap)
  {
    hide Outcome, Acceptable;
  }

  /** The room each point may count on in the input and in the output. */
  predicate Stands(p: Point, size: nat, ip: nat, op: nat, cap: nat) {
    match p
    case NextToken => ip < size && op <= cap
    case AtLiterals(_, _) => ip <= size && op <= cap
    case AtOffset(_) => ip + 3 <= size && op + MFLIMIT <= cap && (cap < 32 ==> ip + 2 + 1 + LASTLITERALS <= size)
    case AtMatch(_, len) => ip < size && op + MFLIMIT <= cap && len >= MINMATCH && (cap < 32 ==> ip + LASTLITERALS - 1 <= size)
  }

  // ----- lengths -----

  ghost function AddLength(n: nat, l: Length): Length {
    match l
    case Broken => Broken
    case Length(m, r) => Length(n + m, r)
  }

  /** read_variable_length; `ilimit` is the last position the read may end at. */
  method ReadVariableLength(src: seq<byte>, ip0: nat, ilimit: int, initialCheck: bool) returns (ok: bool, length: nat, ip: nat)
    requires ip0 <= |src| && ilimit < |src| && (!initialCheck ==> ip0 < |src|)
    ensures ok ==> ip0 < ip <= ilimit && ReadSum(src[ip0..]) == Length(length, src[ip..])
    ensures !ok ==> var l := ReadSum(src[ip0..]); l.Length? ==> |src| - |l.rest| > ilimit
  {
    ip, length, ok := ip0, 0, false;
    ghost var whole := ReadSum(src[ip0..]);
    if initialCheck && ip >= ilimit {
      return;
    }
    var s: byte := 255;
    while s == 255
      invariant ip0 <= ip <= |src| && (s == 255 ==> ip < |src|)
      invariant s == 255 ==> whole == AddLength(length, ReadSum(src[ip..]))
      invariant s != 255 ==> ip0 < ip <= ilimit && whole == Length(length, src[ip..])
      decreases |src| - ip
    {
      SumStep(src[ip..]);
      assert src[ip..][1..] == src[ip + 1..];
      s := src[ip];
      ip := ip + 1;
      length := length + s;
      if ip > ilimit {
        return;
      }
    }
    ok := true;
  }

  /** The match length behind an offset: the low nibble of the token and its continuation. */
  method ReadMatchLength(src: seq<byte>, ip0: nat, token: byte) returns (ok: bool, len: nat, ip: nat)
    requires ip0 < |src|
    ensures ok ==> len >= MINMATCH && ip0 <= ip < |src| && (ip == ip0 || ip + LASTLITERALS - 1 <= |src|)
    ensures ok ==> ReadLength(token % 16, src[ip0..]) == Length(len - MINMATCH, src[ip..])
    ensures !ok ==> var l := ReadLength(token % 16, src[ip0..]); l.Length? ==> |l.rest| < LASTLITERALS - 1
  {
    hide ReadSum;
    ok, len, ip := true, token % 16, ip0;
    if len == 15 {
      var addl: nat;
      ok, addl, ip := ReadVariableLength(src, ip0, |src| - LASTLITERALS + 1, false);
      len := len + addl;
    }
    len := len + MINMATCH;
  }

  // ----- pieces of a sequence -----

  /** Reading the offset and the match length: from AtOffset to AtMatch. */
  method ReadOffset(src: seq<byte>, ghost out: seq<byte>, ip0: nat, token: byte, ghost cap: nat)
    returns (exit: Exit, ip: nat)
    requires ip0 + 3 <= |src|
    ensures exit.Failed? || (exit.Resume? && exit.p.AtMatch? && exit.p.len >= MINMATCH && ip0 < ip < |src|)
    ensures exit.Resume? ==> ip == ip0 + 2 || ip + LASTLITERALS - 1 <= |src|
    ensures exit.Resume? ==> exit.p.offset == Le16(src[ip0..])
    ensures ip <= |src| && Advances(AtOffset(token), src[ip0..], out, exit, src[ip..], out, cap)
  {
    hide ReadLength, Advances;
    var offset := Le16(src[ip0..]);
    var ok, len, next := ReadMatchLength(src, ip0 + 2, token);
    assert src[ip0..][2..] == src[ip0 + 2..];
    if ok {
      exit, ip := Resume(AtMatch(offset, len)), next;
      OffsetRead(src[ip0..], out, token, len, src[ip..], cap);
    } else {
      exit, ip := Failed, ip0;
      OffsetRefused(src[ip0..], out, token, cap);
    }
  }

  lemma {:induction false} OffsetRead(rest: seq<byte>, out: seq<byte>, token: byte, len: nat, after: seq<byte>, cap: nat)
    requires |rest| >= 2 && len >= MINMATCH && ReadLength(token % 16, rest[2..]) == Length(len - MINMATCH, after)
    ensures Advances(AtOffset(token), rest, out, Resume(AtMatch(Le16(rest), len)), after, out, cap)
  {
    hide ReadLength, ExpandMatch, StrictMatch;
  }

  lemma {:induction false} OffsetRefused(rest: seq<byte>, out: seq<byte>, token: byte, cap: nat)
    requires |rest| >= 2
    requires var l := ReadLength(token % 16, rest[2..]); l.Length? ==> |l.rest| < LASTLITERALS - 1
    ensures Advances(AtOffset(token), rest, out, Failed, rest, out, cap)
  {
    hide ReadLength, Strict, StrictMatch;
    if StrictOffset(token, rest, |out|, cap) {
      var l := ReadLength(token % 16, rest[2..]);
      MatchNotLast(Le16(rest), l.n + MINMATCH, l.rest, |out|, cap);
    }
  }

  lemma {:induction false} MatchNotLast(offset: nat, len: nat, rest: seq<byte>, op: nat, cap: nat)
    requires StrictMatch(offset, len, rest, op, cap)
    ensures |rest| >= LASTLITERALS - 1 && offset <= op && op + len + LASTLITERALS <= cap
  {
    hide Strict;
  }

  /** Literals have been copied: from AtLiterals to AtOffset. */
  lemma {:induction false} LiteralsDone(src: seq<byte>, out: seq<byte>, ip: nat, token: byte, n: nat, cap: nat)
    requires ip + n < |src| && (cap < 32 ==> |out| + n + MFLIMIT <= cap && ip + n + (2 + 1 + LASTLITERALS) <= |src|)
    ensures Advances(AtLiterals(token, n), src[ip..], out, Resume(AtOffset(token)), src[ip + n..], out + src[ip..ip + n], cap)
  {
    hide ExpandOffset, StrictOffset;
    assert src[ip..][n..] == src[ip + n..] && src[ip..][..n] == src[ip..ip + n];
  }

  /** A token has been read: from NextToken to AtLiterals. */
  lemma {:induction false} TokenRead(src: seq<byte>, out: seq<byte>, ip: nat, n: nat, ip': nat, cap: nat)
    requires ip < |src| && ip' <= |src| && ReadLength(src[ip] / 16, src[ip + 1..]) == Length(n, src[ip'..])
    ensures Advances(NextToken, src[ip..], out, Resume(AtLiterals(src[ip], n)), src[ip'..], out, cap)
  {
    hide ReadLength, ExpandLiterals, StrictLiterals;
    assert src[ip..][1..] == src[ip + 1..];
  }

  /** A match has been copied: from AtMatch to NextToken. */
  lemma {:induction false} MatchDone(rest: seq<byte>, out: seq<byte>, offset: nat, len: nat, cap: nat)
    requires offset <= |out| && (cap < 32 ==> |out| + len + LASTLITERALS <= cap && |rest| >= LASTLITERALS - 1)
    ensures Advances(AtMatch(offset, len), rest, out, Resume(NextToken), rest, Repeat(out, offset, len), cap)
  {
    hide Expand, Strict, Repeat;
  }

  /** Reading a token with its literal length: from NextToken to AtLiterals. */
  method ReadToken(src: seq<byte>, ghost out: seq<byte>, ip0: nat, ghost cap: nat) returns (exit: Exit, ip: nat)
    requires ip0 < |src|
    ensures exit.Failed? || (exit.Resume? && exit.p.AtLiterals? && exit.p.token == src[ip0] && ip0 < ip)
    ensures exit.Resume? ==> (exit.p.n < 15 ==> ip == ip0 + 1)
    ensures ip <= |src| && Advances(NextToken, src[ip0..], out, exit, src[ip..], out, cap)
  {
    hide Expand, Strict, Outcome, ReadSum;
    var token := src[ip0];
    var n: nat := token / 16;
    ip := ip0 + 1;
    if n == 15 {
      var ok, addl, next := ReadVariableLength(src, ip, |src| - 15, true);
      if !ok {
        TokenRefused(src, ip0, |out|, cap);
        return Failed, ip;
      }
      ip, n := next, n + addl;
    }
    TokenRead(src, out, ip0, n, ip, cap);
    exit := Resume(AtLiterals(token, n));
  }

  /** A literal length that does not end fifteen bytes before the end of the input is not acceptable. */
  lemma {:induction false} TokenRefused(src: seq<byte>, ip: nat, op: nat, cap: nat)
    requires ip < |src| && src[ip] / 16 == 15
    requires var l := ReadSum(src[ip + 1..]); l.Length? ==> |l.rest| < 15
    ensures !Strict(src[ip..], op, cap)
  {
    hide ReadSum, StrictOffset;
    assert src[ip..][1..] == src[ip + 1..];
  }

  // ----- the careful loop -----

  /** safe_literal_copy: the last literals of the block, or literals well inside both buffers. */
  method SafeLiterals(src: seq<byte>, dst: array<byte>, cap: nat, token: byte, n: nat, ip0: nat, op0: nat)
    returns (exit: Exit, ip: nat, op: nat)
    requires ip0 <= |src| && op0 <= cap <= dst.Length
    modifies dst
    ensures op0 <= op <= cap && ip0 <= ip <= |src|
    ensures exit.Resume? ==> exit.p == AtOffset(token) && ip + 2 + 1 + LASTLITERALS <= |src| && op + MFLIMIT <= cap
    ensures Advances(AtLiterals(token, n), src[ip0..], old(dst[..op0]), exit, src[ip..], dst[..op], cap)
    ensures SameFrom(dst[..], old(dst[..]), cap)
  {
    hide Expand, Strict, ExpandOffset, StrictOffset, Advances;
    ghost var was := dst[..];
    ip, op := ip0, op0;
    if op + n + MFLIMIT > cap || ip + n + (2 + 1 + LASTLITERALS) > |src| {
      if ip + n != |src| || op + n > cap {
        LiteralsRefused(src[ip0..], was[..op0], token, n, cap);
        assert dst[..op] == was[..op0];
        return Failed, ip, op;
      }
      ExactLiterals(dst, op, src, ip, n);
      LiteralsLast(src, was[..op0], token, n, ip0, cap);
      ip, op := |src|, op + n;
      assert dst[..][..op] == dst[..op] && was[..op0] == old(dst[..op0]);
      return Finished, ip, op;
    }
    WildLiterals(dst, op, src, ip, n, 8);
    LiteralsDone(src, was[..op0], ip, token, n, cap);
    ip, op := ip + n, op + n;
    assert dst[..][..op] == dst[..op] && was[..op0] == old(dst[..op0]);
    exit := Resume(AtOffset(token));
  }

  lemma {:induction false} LiteralsRefused(rest: seq<byte>, out: seq<byte>, token: byte, n: nat, cap: nat)
    requires |out| + n + MFLIMIT > cap || n + (2 + 1 + LASTLITERALS) > |rest|
    requires n != |rest| || |out| + n > cap
    ensures Advances(AtLiterals(token, n), rest, out, Failed, rest, out, cap)
  {
    hide StrictOffset, ExpandOffset;
  }

  lemma {:induction false} LiteralsLast(src: seq<byte>, out: seq<byte>, token: byte, n: nat, ip: nat, cap: nat)
    requires ip + n == |src| && |out| + n <= cap
    ensures Advances(AtLiterals(token, n), src[ip..], out, Finished, src[|src|..], out + src[ip..ip + n], cap)
  {
    hide StrictOffset, ExpandOffset;
    assert src[ip..ip + n] == src[ip..];
  }

  /** safe_match_copy. */
  method SafeMatch(dst: array<byte>, cap: nat, ghost rest: seq<byte>, offset: nat, len: nat, op0: nat)
    returns (exit: Exit, op: nat)
    requires op0 + MFLIMIT <= cap <= dst.Length && len >= MINMATCH && (cap < 32 ==> |rest| >= LASTLITERALS - 1)
    modifies dst
    ensures op0 <= op <= cap && (exit.Failed? || exit == Resume(NextToken))
    ensures Advances(AtMatch(offset, len), rest, old(dst[..op0]), exit, rest, dst[..op], cap)
    ensures SameFrom(dst[..], old(dst[..]), cap)
  {
    hide Expand, Strict, Advances, Repeat;
    ghost var was := dst[..];
    op := op0;
    assert was[..op0] == old(dst[..op0]);
    var ok := false;
    if offset <= op {
      ok := SafeMatchCopy(dst, op, offset, len, cap);
    }
    if !ok {
      MatchRefused(rest, was[..op0], offset, len, dst[..op], cap);
      return Failed, op;
    }
    MatchDone(rest, was[..op0], offset, len, cap);
    op := op + len;
    assert dst[..][..op] == dst[..op];
    exit := Resume(NextToken);
  }

  lemma {:induction false} MatchRefused(rest: seq<byte>, out: seq<byte>, offset: nat, len: nat, out': seq<byte>, cap: nat)
    requires offset > |out| || |out| + len + LASTLITERALS > cap
    ensures Advances(AtMatch(offset, len), rest, out, Failed, rest, out', cap)
  {
    hide Strict, Expand;
  }

  /** The two-stage shortcut of the careful loop: sixteen bytes for up to fourteen literals, then, when the
      match is short, distant and inside the buffer, eighteen bytes for it. Otherwise it falls back to
      the point of the match copy. */
  method Shortcut(src: seq<byte>, dst: array<byte>, cap: nat, token: byte, n: nat, ip0: nat, op0: nat)
    returns (exit: Exit, ip: nat, op: nat)
    requires n <= 14 && ip0 + 16 < |src| && op0 + 32 <= cap <= dst.Length
    modifies dst
    ensures op0 <= op <= cap && ip <= |src| && !exit.Finished?
    ensures exit.Resume? ==> ip0 < ip && (exit.p.NextToken? || exit.p.AtMatch?) && Stands(exit.p, |src|, ip, op, cap)
    ensures Advances(AtLiterals(token, n), src[ip0..], old(dst[..op0]), exit, src[ip..], dst[..op], cap)
    ensures SameFrom(dst[..], old(dst[..]), cap)
  {
    hide Outcome, Acceptable, Advances, Repeat, Le16;
    ghost var out0 := dst[..op0];
    ip, op := CopyStripe(src, dst, cap, token, n, ip0, op0);
    ghost var out1 := dst[..op];
    ghost var ip1 := ip;
    exit, ip := ReadOffset(src, out1, ip, token, cap);
    AdvancesJoin(AtLiterals(token, n), src[ip0..], out0, AtOffset(token), src[ip1..], out1, exit, src[ip..], out1, cap);
    if exit.Resume? {
      var offset, len := exit.p.offset, exit.p.len;
      if len < 15 + MINMATCH && 8 <= offset <= op {
        Eighteen(dst, cap, src[ip..], offset, len, op);
        AdvancesJoin(AtLiterals(token, n), src[ip0..], out0, exit.p, src[ip..], out1, Resume(NextToken), src[ip..], dst[..op + len], cap);
        exit, op := Resume(NextToken), op + len;
      }
    }
  }

  /** Up to fourteen literals, moved as one sixteen-byte stripe. */
  method CopyStripe(src: seq<byte>, dst: array<byte>, cap: nat, token: byte, n: nat, ip0: nat, op0: nat)
    returns (ip: nat, op: nat)
    requires n <= 14 && ip0 + 16 <= |src| && op0 + 16 <= cap <= dst.Length && 32 <= cap
    modifies dst
    ensures ip == ip0 + n && op == op0 + n
    ensures Advances(AtLiterals(token, n), src[ip0..], old(dst[..op0]), Resume(AtOffset(token)), src[ip..], dst[..op], cap)
    ensures SameFrom(dst[..], old(dst[..]), cap)
  {
    hide Advances;
    LiteralsDone(src, dst[..op0], ip0, token, n, cap);
    StoreBlock(dst, op0, src, ip0, 16);
    ip, op := ip0 + n, op0 + n;
    assert dst[..op] == old(dst[..op0]) + src[ip0..ip0 + n];
  }

  /** A short match at distance eight or more, moved as eighteen bytes. */
  method Eighteen(dst: array<byte>, cap: nat, ghost rest: seq<byte>, offset: nat, len: nat, op: nat)
    requires 8 <= offset <= op && op + 18 <= cap <= dst.Length && 32 <= cap && MINMATCH <= len <= 18
    modifies dst
    ensures Advances(AtMatch(offset, len), rest, old(dst[..op]), Resume(NextToken), rest, dst[..op + len], cap)
    ensures SameFrom(dst[..], old(dst[..]), cap)
  {
    hide Advances, Repeat;
    ghost var was := dst[..];
    assert was[..op] == old(dst[..op]);
    Copy18(dst, op, offset, len);
    MatchDone(rest, was[..op], offset, len, cap);
    assert dst[..][..op + len] == dst[..op + len];
  }

  /** How many points are still ahead in the current sequence. */
  function Rank(p: Point): nat {
    match p
    case NextToken => 0
    case AtLiterals(_, _) => 3
    case AtOffset(_) => 2
    case AtMatch(_, _) => 1
  }

  /** The careful loop's work at one point. */
  method SafeStep(src: seq<byte>, dst: array<byte>, cap: nat, p: Point, ip0: nat, op0: nat)
    returns (exit: Exit, ip: nat, op: nat)
    requires cap <= dst.Length && Stands(p, |src|, ip0, op0, cap)
    modifies dst
    ensures op0 <= op <= cap && ip <= |src|
    ensures exit.Resume? ==> Stands(exit.p, |src|, ip, op, cap) && ip0 <= ip && (ip == ip0 ==> Rank(exit.p) < Rank(p))
    ensures Advances(p, src[ip0..], old(dst[..op0]), exit, src[ip..], dst[..op], cap)
    ensures SameFrom(dst[..], old(dst[..]), cap)
  {
    hide Advances, Outcome, Acceptable;
    ip, op := ip0, op0;
    match p {
      case NextToken =>
        exit, ip, op := SafeToken(src, dst, cap, ip0, op0);
      case AtLiterals(token, n) =>
        exit, ip, op := SafeLiterals(src, dst, cap, token, n, ip0, op0);
      case AtOffset(token) =>
        exit, ip := ReadOffset(src, dst[..op0], ip0, token, cap);
      case AtMatch(offset, len) =>
        exit, op := SafeMatch(dst, cap, src[ip0..], offset, len, op0);
    }
  }

  /** A token, and the shortcut when its literals are few and both buffers have room. */
  method SafeToken(src: seq<byte>, dst: array<byte>, cap: nat, ip0: nat, op0: nat)
    returns (exit: Exit, ip: nat, op: nat)
    requires ip0 < |src| && op0 <= cap <= dst.Length
    modifies dst
    ensures op0 <= op <= cap && ip <= |src| && !exit.Finished?
    ensures exit.Resume? ==> Stands(exit.p, |src|, ip, op, cap) && ip0 < ip
    ensures Advances(NextToken, src[ip0..], old(dst[..op0]), exit, src[ip..], dst[..op], cap)
    ensures SameFrom(dst[..], old(dst[..]), cap)
  {
    hide Advances, Outcome, Acceptable;
    ghost var out0 := dst[..op0];
    op := op0;
    exit, ip := ReadToken(src, out0, ip0, cap);
    if exit.Resume? && exit.p.n <= 14 && ip + 16 < |src| && op + 32 <= cap {
      ghost var p1, ip1 := exit.p, ip;
      exit, ip, op := Shortcut(src, dst, cap, exit.p.token, exit.p.n, ip, op);
      AdvancesJoin(NextToken, src[ip0..], out0, p1, src[ip1..], out0, exit, src[ip..], dst[..op], cap);
    }
  }

  /** The careful loop. */
  method SafeLoop(src: seq<byte>, dst: array<byte>, cap: nat, p0: Point, ip0: nat, op0: nat)
    returns (ok: bool, ip: nat, op: nat)
    requires ip0 <= |src| && op0 <= cap <= dst.Length && Stands(p0, |src|, ip0, op0, cap)
    modifies dst
    ensures op <= cap && ip <= |src|
    ensures Advances(p0, src[ip0..], old(dst[..op0]), if ok then Finished else Failed, src[ip..], dst[..op], cap)
    ensures SameFrom(dst[..], old(dst[..]), cap)
  {
    hide Outcome, Acceptable, Stands;
    ghost var rest0, out0 := src[ip0..], dst[..op0];
    var exit := Resume(p0);
    ip, op := ip0, op0;
    while exit.Resume?
      invariant ip <= |src| && op <= cap && (exit.Resume? ==> Stands(exit.p, |src|, ip, op, cap))
      invariant Advances(p0, rest0, out0, exit, src[ip..], dst[..op], cap)
      invariant SameFrom(dst[..], old(dst[..]), cap)
      decreases exit.Resume?, |src| - ip, if exit.Resume? then Rank(exit.p) else 0
    {
      ghost var p1, rest1, out1 := exit.p, src[ip..], dst[..op];
      exit, ip, op := SafeStep(src, dst, cap, exit.p, ip, op);
      AdvancesJoin(p0, rest0, out0, p1, rest1, out1, exit, src[ip..], dst[..op], cap);
    }
    ok := exit.Finished?;
  }

  // ----- the fast loop -----

  const FASTLOOP_SAFE_DISTANCE := 64

  /** Literals of the fast loop, or the decision to leave it before copying them. */
  method FastLiterals(src: seq<byte>, dst: array<byte>, cap: nat, token: byte, n: nat, ip0: nat, op0: nat)
    returns (p: Point, ip: nat, op: nat)
    requires ip0 <= |src| && op0 + FASTLOOP_SAFE_DISTANCE <= cap <= dst.Length
    modifies dst
    ensures p == AtLiterals(token, n) || (p == AtOffset(token) && op + 32 <= cap)
    ensures ip0 <= ip && op0 <= op && Stands(p, |src|, ip, op, cap)
    ensures Advances(AtLiterals(token, n), src[ip0..], old(dst[..op0]), Resume(p), src[ip..], dst[..op], cap)
    ensures SameFrom(dst[..], old(dst[..]), cap)
  {
    hide Advances;
    ghost var was := dst[..];
    p, ip, op := AtLiterals(token, n), ip0, op0;
    assert dst[..op] == old(dst[..op0]) == was[..op0];
    if n >= 15 {
      if op + n + 32 > cap || ip + n + 32 > |src| {
        StayHere(p, src[ip..], dst[..op], cap);
        return;
      }
      WildLiterals(dst, op, src, ip, n, 32);
      LiteralsDone(src, was[..op0], ip, token, n, cap);
      ip, op := ip + n, op + n;
      assert dst[..][..op] == dst[..op];
      p := AtOffset(token);
    } else if ip + (16 + 1) <= |src| {
      ip, op := CopyStripe(src, dst, cap, token, n, ip, op);
      p := AtOffset(token);
    } else {
      StayHere(p, src[ip..], dst[..op], cap);
    }
  }

  lemma {:induction false} StayHere(p: Point, rest: seq<byte>, out: seq<byte>, cap: nat)
    ensures Advances(p, rest, out, Resume(p), rest, out, cap)
  {
  }

  /** The match of the fast loop, or the decision to leave it near the end of the output. */
  method FastMatch(dst: array<byte>, cap: nat, ghost rest: seq<byte>, offset: nat, len: nat, op0: nat)
    returns (exit: Exit, op: nat)
    requires op0 + 32 <= cap <= dst.Length && len >= MINMATCH
    modifies dst
    ensures op0 <= op <= cap
    ensures exit.Failed? || exit == Resume(AtMatch(offset, len)) || (exit == Resume(NextToken) && op + FASTLOOP_SAFE_DISTANCE <= cap)
    ensures exit == Resume(AtMatch(offset, len)) ==> op == op0
    ensures Advances(AtMatch(offset, len), rest, old(dst[..op0]), exit, rest, dst[..op], cap)
    ensures SameFrom(dst[..], old(dst[..]), cap)
  {
    hide Advances, Repeat;
    ghost var was := dst[..];
    op := op0;
    assert dst[..op] == old(dst[..op0]) == was[..op0];
    if op + len + FASTLOOP_SAFE_DISTANCE >= cap {
      StayHere(AtMatch(offset, len), rest, dst[..op], cap);
      return Resume(AtMatch(offset, len)), op;
    }
    if len < 15 + MINMATCH && 8 <= offset <= op {
      Eighteen(dst, cap, rest, offset, len, op);
      return Resume(NextToken), op + len;
    }
    if offset > op {
      MatchRefused(rest, dst[..op], offset, len, dst[..op], cap);
      return Failed, op;
    }
    if offset < 16 {
      MemcpyUsingOffset(dst, op, offset, len);
    } else {
      WildCopy32(dst, op, offset, len);
    }
    MatchDone(rest, was[..op0], offset, len, cap);
    op := op + len;
    assert dst[..][..op] == dst[..op];
    exit := Resume(NextToken);
  }

  /** One whole sequence in the fast loop. */
  method FastTurn(src: seq<byte>, dst: array<byte>, cap: nat, ip0: nat, op0: nat)
    returns (exit: Exit, ip: nat, op: nat)
    requires ip0 < |src| && op0 + FASTLOOP_SAFE_DISTANCE <= cap <= dst.Length
    modifies dst
    ensures !exit.Finished? && op0 <= op <= cap && ip <= |src|
    ensures exit.Resume? ==> ip0 < ip && Stands(exit.p, |src|, ip, op, cap)
    ensures exit == Resume(NextToken) ==> op + FASTLOOP_SAFE_DISTANCE <= cap
    ensures Advances(NextToken, src[ip0..], old(dst[..op0]), exit, src[ip..], dst[..op], cap)
    ensures SameFrom(dst[..], old(dst[..]), cap)
  {
    hide Advances, Outcome, Acceptable;
    ghost var rest0, out0 := src[ip0..], dst[..op0];
    op := op0;
    exit, ip := ReadToken(src, out0, ip0, cap);
    if exit.Failed? {
      return;
    }
    ghost var p1, rest1 := exit.p, src[ip..];
    var p: Point, token := AtOffset(exit.p.token), exit.p.token;
    p, ip, op := FastLiterals(src, dst, cap, exit.p.token, exit.p.n, ip, op);
    AdvancesJoin(NextToken, rest0, out0, p1, rest1, out0, Resume(p), src[ip..], dst[..op], cap);
    exit := Resume(p);
    if p.AtOffset? {
      ghost var rest2, out2 := src[ip..], dst[..op];
      exit, ip := ReadOffset(src, out2, ip, token, cap);
      AdvancesJoin(NextToken, rest0, out0, p, rest2, out2, exit, src[ip..], out2, cap);
      if exit.Resume? {
        ghost var p3 := exit.p;
        exit, op := FastMatch(dst, cap, src[ip..], exit.p.offset, exit.p.len, op);
        AdvancesJoin(NextToken, rest0, out0, p3, src[ip..], out2, exit, src[ip..], dst[..op], cap);
      }
    }
  }

  /** The fast loop; it ends with an error or at a point of the careful loop. */
  method FastLoop(src: seq<byte>, dst: array<byte>, cap: nat) returns (exit: Exit, ip: nat, op: nat)
    requires src != [] && FASTLOOP_SAFE_DISTANCE <= cap <= dst.Length
    modifies dst
    ensures !exit.Finished? && op <= cap && ip <= |src|
    ensures exit.Resume? ==> Stands(exit.p, |src|, ip, op, cap)
    ensures Advances(NextToken, src, [], exit, src[ip..], dst[..op], cap)
    ensures SameFrom(dst[..], old(dst[..]), cap)
  {
    hide Outcome, Acceptable;
    ip, op, exit := 0, 0, Resume(NextToken);
    assert src[0..] == src && dst[..0] == [];
    while exit == Resume(NextToken)
      invariant !exit.Finished? && op <= cap && ip <= |src|
      invariant exit.Resume? ==> Stands(exit.p, |src|, ip, op, cap)
      invariant exit == Resume(NextToken) ==> op + FASTLOOP_SAFE_DISTANCE <= cap
      invariant Advances(NextToken, src, [], exit, src[ip..], dst[..op], cap)
      invariant SameFrom(dst[..], old(dst[..]), cap)
      decreases exit == Resume(NextToken), |src| - ip
    {
      ghost var rest1, out1 := src[ip..], dst[..op];
      exit, ip, op := FastTurn(src, dst, cap, ip, op);
      AdvancesJoin(NextToken, src, [], NextToken, rest1, out1, exit, src[ip..], dst[..op], cap);
    }
  }

  // ----- the entry point -----

  /** For every input: a non-negative result is the number of bytes the block stands for, and they are in
      place; a block that respects the parsing restrictions is never refused; nothing is written from `cap` on. */
  method Decompress(src: seq<byte>, dst: array<byte>, cap: nat) returns (r: int)
    requires cap <= dst.Length
    modifies dst
    ensures r >= 0 ==> r <= cap && Expand(src, []) == Some(dst[..r])
    ensures Strict(src, 0, cap) ==> r >= 0
    ensures cap < 32 ==> (r >= 0 <==> Strict(src, 0, cap))
    ensures SameFrom(dst[..], old(dst[..]), cap)
  {
    hide Stands, Expand, Strict;
    if cap == 0 || src == [] {
      EmptyBlock(src, cap);
      assert dst[..0] == [];
      return if cap == 0 && |src| == 1 && src[0] == 0 then 0 else -1;
    }
    var exit: Exit, ip: nat, op: nat := Resume(NextToken), 0, 0;
    assert src[0..] == src && dst[..0] == [];
    StartStands(src, cap);
    if cap >= FASTLOOP_SAFE_DISTANCE {
      exit, ip, op := FastLoop(src, dst, cap);
    }
    if exit.Failed? {
      return -(ip as int) - 1;
    }
    ghost var p1, rest1, out1 := exit.p, src[ip..], dst[..op];
    var ok: bool;
    ok, ip, op := SafeLoop(src, dst, cap, exit.p, ip, op);
    AdvancesJoin(NextToken, src, [], p1, rest1, out1, if ok then Finished else Failed, src[ip..], dst[..op], cap);
    r := if ok then op else -(ip as int) - 1;
  }

  lemma {:induction false} StartStands(src: seq<byte>, cap: nat)
    requires src != []
    ensures Stands(NextToken, |src|, 0, 0, cap) && Advances(NextToken, src, [], Resume(NextToken), src, [], cap)
  {
  }

  lemma {:induction false} ZeroTokenExpands()
    ensures Expand([0], []) == Some([])
  {
    hide ReadSum;
    var src: seq<byte> := [0];
    assert src[1..] == [];
    var nothing: seq<byte> := [];
    assert ExpandLiterals(0, 0, nothing, []) == Some(nothing + nothing);
  }

  /** With no room for output only the block of one zero token decodes, to nothing. */
  lemma {:induction false} EmptyBlock(src: seq<byte>, cap: nat)
    requires cap == 0 || src == []
    ensures src == [0] ==> Expand(src, []) == Some([])
    ensures Strict(src, 0, cap) ==> src == [0]
    ensures src == [0] ==> Strict(src, 0, cap)
  {
    hide ReadSum, Expand, StrictOffset;
    ZeroTokenExpands();
    if Strict(src, 0, cap) {
      var l := ReadLength(src[0] / 16, src[1..]);
      assert StrictLiterals(src[0], l.n, l.rest, 0, 0);
      assert l.n == 0 && l.rest == src[1..];
      assert src[0] / 16 == 0;
      assert src == [src[0]] + src[1..];
    }
  }
}
