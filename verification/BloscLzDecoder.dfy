// blosclz_decompress, writing into one output buffer.

module BloscLzDecoder {
  import opened Bytes
  import opened LzCopies
  import opened CopyKernels
  import opened BloscLzFormat

  // ----- 32-bit match lengths -----

  /** What blosclz_decompress makes of a stream: an output, the return value 0, or stores outside of the output. */
  datatype Result = Made(out: seq<byte>) | Refused | Astray

  /** The decoder with the length of a match wrapped to 32 bits. A wrapped length passes the space test when it is
      small or negative; a negative one then drives the copy out of the output. */
  function Code(ctrl: byte, rest: seq<byte>, out: seq<byte>, maxout: nat): (r: Result)
    requires |out| <= maxout
    ensures r.Made? ==> |out| <= |r.out| <= maxout
    decreases |rest|
  {
    if ctrl >= 32 then
      match ReadMatch(ctrl, rest)
      case NoMatch => Refused
      case Match(len, dist, r) =>
        if |out| + Int32(len) > maxout || dist > |out| then Refused
        else if r == [] then Made(out)
        else if Int32(len) < 0 then Astray
        else Code(r[0], r[1..], LzCopy(out, dist, Int32(len)), maxout)
    else
      var n := ctrl + 1;
      if |out| + n > maxout || n > |rest| then Refused
      else if n == |rest| then Made(out + rest)
      else Code(rest[n], rest[n + 1..], out + rest[..n], maxout)
  }

  function CodeDecode(stream: seq<byte>, maxout: nat): (r: Result)
    ensures r.Made? ==> |r.out| <= maxout
  {
    if stream == [] then Made([]) else Code(stream[0] % 32, stream[1..], [], maxout)
  }

  /** The bytes that a caller sees. */
  function Output(r: Result): seq<byte> {
    if r.Made? then r.out else []
  }

  /** The decoder reaches a match whose length has wrapped, and takes it for one that fits. */
  ghost predicate Misled(ctrl: byte, rest: seq<byte>, out: seq<byte>, maxout: nat)
    requires |out| <= maxout
    decreases |rest|
  {
    if ctrl >= 32 then
      match ReadMatch(ctrl, rest)
      case NoMatch => false
      case Match(len, dist, r) =>
        && |out| + Int32(len) <= maxout && dist <= |out|
        && (len > INT_MAX || (r != [] && 0 <= Int32(len) && Misled(r[0], r[1..], LzCopy(out, dist, Int32(len)), maxout)))
    else
      var n := ctrl + 1;
      |out| + n <= maxout && n < |rest| && Misled(rest[n], rest[n + 1..], out + rest[..n], maxout)
  }

  ghost predicate MisledBy(stream: seq<byte>, maxout: nat) {
    stream != [] && Misled(stream[0] % 32, stream[1..], [], maxout)
  }

  /** The result is the specified one; the return value 0 stands for it when nothing is made. */
  predicate Gives(r: Result, s: seq<byte>) {
    match r
    case Made(out) => out == s
    case Refused => s == []
    case Astray => false
  }

  /** A decoder that is not misled does what the format says; one that is should have given 0. */
  lemma {:induction false} CodeMeans(ctrl: byte, rest: seq<byte>, out: seq<byte>, maxout: nat)
    requires |out| <= maxout <= INT_MAX
    ensures !Misled(ctrl, rest, out, maxout) ==> Gives(Code(ctrl, rest, out, maxout), Run(ctrl, rest, out, maxout))
    ensures Misled(ctrl, rest, out, maxout) ==> Run(ctrl, rest, out, maxout) == [] && Code(ctrl, rest, out, maxout) != Made([])
    decreases |rest|
  {
    hide ReadMatch, LzCopy, Int32;
    if ctrl >= 32 {
      var m := ReadMatch(ctrl, rest);
      if m.Match? && m.dist <= |out| && m.len <= INT_MAX {
        Int32Fits(m.len);
        if |out| + m.len <= maxout && m.rest != [] {
          CodeMeans(m.rest[0], m.rest[1..], LzCopy(out, m.dist, m.len), maxout);
        }
      }
    } else {
      var n := ctrl + 1;
      if |out| + n <= maxout && n < |rest| {
        CodeMeans(rest[n], rest[n + 1..], out + rest[..n], maxout);
      }
    }
  }

  /** The decoder gives what the format says exactly when no wrapped length misleads it, or what follows makes it
      refuse the stream after all. */
  lemma {:induction false} CodeAgrees(stream: seq<byte>, maxout: nat)
    requires maxout <= INT_MAX
    ensures Gives(CodeDecode(stream, maxout), Decode(stream, maxout)) <==> !MisledBy(stream, maxout) || CodeDecode(stream, maxout) == Refused
    ensures MisledBy(stream, maxout) ==> Decode(stream, maxout) == []
  {
    hide Code, Misled, Run;
    if stream != [] {
      CodeMeans(stream[0] % 32, stream[1..], [], maxout);
    }
  }

  /** A chain adds less than 255 times its bytes. */
  lemma {:induction false} ChainAtMost(rest: seq<byte>)
    ensures ReadChain(rest).Chain? ==> ReadChain(rest).total < 255 * (|rest| - |ReadChain(rest).rest|) <= 255 * (|rest| - 1)
  {
    if |rest| > 1 && rest[0] == 255 {
      ChainAtMost(rest[1..]);
    }
  }

  lemma {:induction false} LongMatch(ctrl: byte, rest: seq<byte>)
    requires ctrl >= 32 && ReadMatch(ctrl, rest).Match? && ReadMatch(ctrl, rest).len > INT_MAX
    ensures |rest| >= 8421506
  {
    hide ReadChain;
    ChainAtMost(rest);
  }

  /** It takes a long stream to mislead the decoder, and something to copy from. */
  lemma {:induction false} MisledIsLong(ctrl: byte, rest: seq<byte>, out: seq<byte>, maxout: nat)
    requires |out| <= maxout && Misled(ctrl, rest, out, maxout)
    ensures |rest| >= 8421506 && (out == [] ==> |rest| >= 8421508)
    decreases |rest|
  {
    hide ReadMatch, LzCopy, Int32;
    if ctrl >= 32 {
      var m := ReadMatch(ctrl, rest);
      if m.len > INT_MAX {
        LongMatch(ctrl, rest);
      } else {
        MisledIsLong(m.rest[0], m.rest[1..], LzCopy(out, m.dist, Int32(m.len)), maxout);
      }
    } else {
      var n := ctrl + 1;
      MisledIsLong(rest[n], rest[n + 1..], out + rest[..n], maxout);
    }
  }

  lemma {:induction false} NoRoomNotMisled(ctrl: byte, rest: seq<byte>)
    requires ctrl < 32
    ensures !Misled(ctrl, rest, [], 0)
  {
  }

  /** The shortest stream that misleads the decoder. */
  const MISLEADING := 8421509

  /** No shorter stream does: for those, and for all streams that decode to something, code and format agree. */
  lemma {:induction false} ShortAgrees(stream: seq<byte>, maxout: nat)
    requires maxout <= INT_MAX && (|stream| < MISLEADING || Decode(stream, maxout) != [] || maxout == 0)
    ensures !MisledBy(stream, maxout) && Gives(CodeDecode(stream, maxout), Decode(stream, maxout))
  {
    hide Code, Misled, Run;
    CodeAgrees(stream, maxout);
    if MisledBy(stream, maxout) {
      MisledIsLong(stream[0] % 32, stream[1..], [], maxout);
      NoRoomNotMisled(stream[0] % 32, stream[1..]);
    }
  }

  /** One literal, and a match at distance 1 whose length is 2^31. */
  function MisleadingStream(x: byte): (s: seq<byte>)
    ensures |s| == MISLEADING
  {
    [0, x, 7 * 32] + (ChainBytes(0x7FFF_FFF7) + [0])
  }

  lemma {:induction false} ReadMisleading(after: seq<byte>)
    ensures ReadMatch(7 * 32, ChainBytes(0x7FFF_FFF7) + [0] + after) == Match(0x8000_0000, 1, after)
  {
    hide ReadChain, ChainBytes;
    var low := [0] + after;
    ChainRoundTrip(0x7FFF_FFF7, low);
    assert ChainBytes(0x7FFF_FFF7) + [0] + after == ChainBytes(0x7FFF_FFF7) + low;
    assert low[1..] == after;
  }

  lemma {:induction false} MisleadingMatch(x: byte, after: seq<byte>, maxout: nat)
    requires 1 <= maxout <= INT_MAX
    ensures var rest := ChainBytes(0x7FFF_FFF7) + [0] + after;
      Misled(7 * 32, rest, [x], maxout) && Code(7 * 32, rest, [x], maxout) == if after == [] then Made([x]) else Astray
  {
    hide ReadMatch, LzCopy, ChainBytes;
    ReadMisleading(after);
    assert Int32(0x8000_0000) == -0x8000_0000;
  }

  /** The format has no meaning for it. The code stops with the literal when the stream ends there, and with any
      further byte it leaves the output. */
  lemma {:induction false} Misleads(x: byte, after: seq<byte>, maxout: nat)
    requires 1 <= maxout <= INT_MAX
    ensures var s := MisleadingStream(x) + after;
      && MisledBy(s, maxout) && Decode(s, maxout) == []
      && CodeDecode(s, maxout) == if after == [] then Made([x]) else Astray
  {
    hide ReadMatch, LzCopy, ChainBytes, Run;
    var rest := ChainBytes(0x7FFF_FFF7) + [0] + after;
    var s := MisleadingStream(x) + after;
    MisleadingMatch(x, after, maxout);
    CodeAgrees(s, maxout);
    var t := s[1..];
    assert s[0] == 0 && t == [x, 7 * 32] + rest && t[1] == 7 * 32 && t[2..] == rest && [] + t[..1] == [x];
  }

  // ----- the decoder -----

  /** The length chain at `ip0`: the do-while loop of the decoder, which adds to a 32-bit length. */
  method ReadLength(input: seq<byte>, ip0: nat, len0: nat) returns (ok: bool, len: int, ghost total: nat, ip: nat)
    requires ip0 <= |input| && len0 <= INT_MAX
    ensures ok == ReadChain(input[ip0..]).Chain?
    ensures ok ==> ip0 < ip < |input| && ReadChain(input[ip0..]) == Chain(total, input[ip..]) && len == Int32(len0 + total)
  {
    hide Int32;
    ghost var whole := ReadChain(input[ip0..]);
    var code: byte := 255;
    ip, len, total := ip0, len0, 0;
    Int32Fits(len0);
    while code == 255
      invariant ip0 <= ip <= |input| && len == Int32(len0 + total)
      invariant code == 255 ==> whole == AddChain(total, ReadChain(input[ip..]))
      invariant code != 255 ==> ip0 < ip < |input| && whole == Chain(total, input[ip..])
      decreases |input| - ip
    {
      if ip + 1 >= |input| {
        return false, 0, 0, ip;
      }
      code := input[ip];
      assert input[ip..][1..] == input[ip + 1..];
      ip := ip + 1;
      Int32Adds(len0 + total, code);
      len, total := Int32(len + code), total + code;
    }
    ok := true;
  }

  ghost function AddChain(n: nat, c: Chain): Chain {
    match c
    case Broken => Broken
    case Chain(m, r) => Chain(n + m, r)
  }

  /** The 32-bit length, the distance and the next read position of the match behind `ctrl`. */
  method ReadHeader(input: seq<byte>, ip0: nat, ctrl: byte) returns (ok: bool, len: int, dist: nat, ip: nat)
    requires ip0 <= |input| && ctrl >= 32
    ensures ok == ReadMatch(ctrl, input[ip0..]).Match?
    ensures ok ==> var m := ReadMatch(ctrl, input[ip0..]);
      ip0 < ip <= |input| && m == Match(m.len, dist, input[ip..]) && len == Int32(m.len)
  {
    hide ReadChain, Int32;
    ip := ip0;
    len := ctrl / 32 - 1;
    dist := 0;
    ghost var total: nat := 0;
    var ofs: int := ctrl as int % 32 * 256;
    Int32Fits(len);
    if len == 6 {
      ok, len, total, ip := ReadLength(input, ip, len);
      if !ok {
        return;
      }
    } else if ip + 1 >= |input| {
      return false, 0, 0, ip;
    }
    ghost var after := input[ip..];
    var code := input[ip];
    ip := ip + 1;
    Int32Adds(ctrl / 32 - 1 + total, 3);
    len := Int32(len + 3);
    if code == 255 && ofs == 31 * 256 {
      if ip + 1 >= |input| {
        return false, 0, 0, ip;
      }
      ofs := input[ip] as int * 256;
      ofs := ofs + input[ip + 1];
      ip := ip + 2;
      dist := ofs + MAX_DISTANCE + 1;
      assert input[ip..] == after[3..];
    } else {
      dist := ofs + code + 1;
      assert input[ip..] == after[1..];
    }
    ok := true;
  }

  /** The three ways of copying a match: a run, a wild copy when there is slack, any overlap. */
  method CopyStep(output: array<byte>, maxout: nat, op: nat, dist: nat, len: nat, simd: nat)
    requires simd == 8 || simd == 16 || simd == 32
    requires 1 <= dist <= op && op + len <= maxout <= output.Length
    modifies output
    ensures CopiedTo(output[..], old(output[..]), op, dist, len, maxout)
  {
    ghost var was := output[..];
    if dist == 1 {
      forall i | op <= i < op + len {
        output[i] := output[op - 1];
      }
      RepeatsIsCopied(output[..], was, op, 1, len, maxout);
    } else if dist >= 8 && maxout - op >= len + 8 {
      WildCopy(output, op, op - dist, len);
      RepeatsIsCopied(output[..], was, op, dist, len, maxout);
    } else {
      if simd == 32 && dist <= 16 {
        CopyMatch16(output, op, op - dist, len);
      } else {
        CopyMatch(output, op, op - dist, len, simd);
      }
      CopiedWithin(output[..], was, op, dist, len, op + len, maxout);
    }
  }

  /** memcpy of a literal run. */
  method CopyLiterals(output: array<byte>, op: nat, input: seq<byte>, ip: nat, n: nat)
    requires op + n <= output.Length && ip + n <= |input|
    modifies output
    ensures output[..op + n] == old(output[..op]) + input[ip..ip + n]
    ensures forall i :: op + n <= i < output.Length ==> output[i] == old(output[i])
  {
    forall i | op <= i < op + n {
      output[i] := input[i - op + ip];
    }
  }

  /** How one turn of the decoder's loop ends. */
  datatype Turn = Reject | Stop | Stray | Next(ctrl: byte, ip: nat)

  /** The result of the whole decode, given how a turn ended and what has been written. */
  ghost function After(turn: Turn, input: seq<byte>, made: seq<byte>, maxout: nat): Result
    requires |made| <= maxout && (turn.Next? ==> turn.ip <= |input|)
  {
    match turn
    case Reject => Refused
    case Stop => Made(made)
    case Stray => Astray
    case Next(ctrl, ip) => Code(ctrl, input[ip..], made, maxout)
  }

  method MatchTurn(input: seq<byte>, output: array<byte>, maxout: nat, simd: nat, ctrl: byte, ip: nat, op: nat)
    returns (turn: Turn, op': nat)
    requires simd == 8 || simd == 16 || simd == 32
    requires ctrl >= 32 && ip <= |input| && op <= maxout <= output.Length
    modifies output
    ensures op <= op' <= maxout && (turn.Next? ==> ip < turn.ip <= |input|)
    ensures Code(ctrl, input[ip..], old(output[..op]), maxout) == After(turn, input, output[..op'], maxout)
    ensures forall i :: maxout <= i < output.Length ==> output[i] == old(output[i])
  {
    hide ReadMatch, LzCopy, Int32;
    ghost var was := output[..];
    var ok, len, dist, next := ReadHeader(input, ip, ctrl);
    if !ok || op + len > maxout || dist > op {
      return Reject, op;
    }
    if next >= |input| {
      return Stop, op;
    }
    if len < 0 {
      return Stray, op;
    }
    CopyStep(output, maxout, op, dist, len, simd);
    assert was[..op] == old(output[..op]) && output[..][..op + len] == output[..op + len];
    assert input[next..][1..] == input[next + 1..];
    return Next(input[next], next + 1), op + len;
  }

  lemma {:induction false} RunLiterals(ctrl: byte, input: seq<byte>, ip: nat, made: seq<byte>, maxout: nat)
    requires ctrl < 32 && ip + ctrl + 1 <= |input| && |made| + ctrl + 1 <= maxout
    ensures var stop := ip + ctrl + 1; var lits := input[ip..stop];
      Code(ctrl, input[ip..], made, maxout) ==
        if stop == |input| then Made(made + lits) else Code(input[stop], input[stop + 1..], made + lits, maxout)
  {
    hide ReadMatch, LzCopy;
    var rest, n := input[ip..], ctrl + 1;
    assert rest[..n] == input[ip..ip + n];
    if n < |rest| {
      assert rest[n + 1..] == input[ip + n + 1..];
    }
  }

  method LiteralTurn(input: seq<byte>, output: array<byte>, maxout: nat, ctrl: byte, ip: nat, op: nat)
    returns (turn: Turn, op': nat)
    requires ctrl < 32 && ip <= |input| && op <= maxout <= output.Length
    modifies output
    ensures op <= op' <= maxout && (turn.Next? ==> ip < turn.ip <= |input|)
    ensures Code(ctrl, input[ip..], old(output[..op]), maxout) == After(turn, input, output[..op'], maxout)
    ensures forall i :: maxout <= i < output.Length ==> output[i] == old(output[i])
  {
    hide ReadMatch, LzCopy, Int32;
    var n := ctrl + 1;
    turn, op' := Reject, op;
    if op + n <= maxout && ip + n <= |input| {
      ghost var made := output[..op];
      RunLiterals(ctrl, input, ip, made, maxout);
      CopyLiterals(output, op, input, ip, n);
      op' := op + n;
      turn := if ip + n == |input| then Stop else Next(input[ip + n], ip + n + 1);
      assert output[..op'] == made + input[ip..ip + n];
    } else {
      assert Code(ctrl, input[ip..], output[..op], maxout) == Refused;
    }
  }

  /** For every input, well formed or not, the decoder computes CodeDecode, which is Decode unless a wrapped length
      misleads it, and does not write past `maxout` unless it goes astray; there the model stops. The parameters of
      the procedure are ints. */
  method Decompress(input: seq<byte>, output: array<byte>, maxout: nat, simd: nat) returns (r: nat, astray: bool)
    requires simd == 8 || simd == 16 || simd == 32
    requires maxout <= output.Length && maxout <= INT_MAX && |input| <= INT_MAX
    modifies output
    ensures astray <==> CodeDecode(input, maxout) == Astray
    ensures !astray ==> r == |Output(CodeDecode(input, maxout))| && output[..r] == Output(CodeDecode(input, maxout))
    ensures !MisledBy(input, maxout) ==> !astray && r == |Decode(input, maxout)| && output[..r] == Decode(input, maxout)
    ensures !astray ==> forall i :: maxout <= i < output.Length ==> output[i] == old(output[i])
  {
    hide Code, Run, Misled;
    CodeAgrees(input, maxout);
    if input == [] {
      return 0, false;
    }
    var turn: Turn := Next(input[0] % 32, 1);
    var op: nat := 0;
    assert output[..0] == [];
    while turn.Next?
      invariant op <= maxout && (turn.Next? ==> turn.ip <= |input|)
      invariant CodeDecode(input, maxout) == After(turn, input, output[..op], maxout)
      invariant forall i :: maxout <= i < output.Length ==> output[i] == old(output[i])
      decreases turn.Next?, if turn.Next? then |input| - turn.ip else 0
    {
      if turn.ctrl >= 32 {
        turn, op := MatchTurn(input, output, maxout, simd, turn.ctrl, turn.ip, op);
      } else {
        turn, op := LiteralTurn(input, output, maxout, turn.ctrl, turn.ip, op);
      }
    }
    r := if turn.Stop? then op else 0;
    astray := turn.Stray?;
  }
}
