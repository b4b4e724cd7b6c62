// The BloscLZ stream format: what the decoder makes of any byte string, what the encoder
// writes for a match, and why reading back what was written continues the output.

module BloscLzFormat {
  import opened Bytes
  import opened LzCopies

  const MAX_COPY := 32
  const MAX_DISTANCE := 8191
  const MAX_FARDISTANCE := 65535 + MAX_DISTANCE - 1

  // ----- reading -----

  /** A length chain: bytes of 255 add up until a smaller byte ends the chain. */
  datatype Chain = Broken | Chain(total: nat, rest: seq<byte>)

  function ReadChain(rest: seq<byte>): (c: Chain)
    ensures c.Chain? ==> 1 <= |c.rest| < |rest|
  {
    if |rest| <= 1 then Broken
    else if rest[0] == 255 then
      match ReadChain(rest[1..])
      case Broken => Broken
      case Chain(n, r) => Chain(255 + n, r)
    else Chain(rest[0], rest[1..])
  }

  /** A decoded match: real length, real distance, bytes that follow. */
  datatype Match = NoMatch | Match(len: nat, dist: nat, rest: seq<byte>)

  function ReadMatch(ctrl: byte, rest: seq<byte>): (m: Match)
    requires ctrl >= 32
    ensures m.Match? ==> m.dist >= 1 && |m.rest| < |rest|
  {
    var ofs := ctrl as int % 32 * 256;
    var chain := if ctrl / 32 == 7 then ReadChain(rest) else if |rest| <= 1 then Broken else Chain(0, rest);
    match chain
    case Broken => NoMatch
    case Chain(n, r) =>
      var len := ctrl / 32 - 1 + n + 3;
      if r[0] == 255 && ofs == 31 * 256 then
        if |r| <= 2 then NoMatch
        else Match(len, r[1] as int * 256 + r[2] + MAX_DISTANCE + 1, r[3..])
      else Match(len, ofs + r[0] + 1, r[1..])
  }

  /** The decoder holding control byte `ctrl`, with `rest` unread and `out` produced. The empty
      result stands for the return value 0, which the decoder gives on malformed input. A match
      that ends the stream is dropped: the decoder stops before copying it. */
  function Run(ctrl: byte, rest: seq<byte>, out: seq<byte>, maxout: nat): (r: seq<byte>)
    requires |out| <= maxout
    ensures |r| <= maxout
    decreases |rest|
  {
    if ctrl >= 32 then
      match ReadMatch(ctrl, rest)
      case NoMatch => []
      case Match(len, dist, r) =>
        if |out| + len > maxout || dist > |out| then []
        else if r == [] then out
        else Run(r[0], r[1..], LzCopy(out, dist, len), maxout)
    else
      var n := ctrl + 1;
      if |out| + n > maxout || n > |rest| then []
      else if n == |rest| then out + rest
      else Run(rest[n], rest[n + 1..], out + rest[..n], maxout)
  }

  /** blosclz_decompress: the top bits of the very first control byte are ignored. */
  function Decode(stream: seq<byte>, maxout: nat): (r: seq<byte>)
    ensures |r| <= maxout
  {
    if stream == [] then [] else Run(stream[0] % 32, stream[1..], [], maxout)
  }

  /** More room changes nothing for a stream that decodes to something. */
  lemma {:induction false} MoreRoom(ctrl: byte, rest: seq<byte>, out: seq<byte>, m: nat, n: nat)
    requires |out| <= m <= n && Run(ctrl, rest, out, m) != []
    ensures Run(ctrl, rest, out, n) == Run(ctrl, rest, out, m)
    decreases |rest|
  {
    hide ReadMatch, LzCopy;
    if ctrl >= 32 {
      var x := ReadMatch(ctrl, rest);
      if x.rest != [] {
        MoreRoom(x.rest[0], x.rest[1..], LzCopy(out, x.dist, x.len), m, n);
      }
    } else {
      var k := ctrl + 1;
      if k < |rest| {
        MoreRoom(rest[k], rest[k + 1..], out + rest[..k], m, n);
      }
    }
  }

  lemma {:induction false} DecodesInMore(stream: seq<byte>, m: nat, n: nat)
    requires m <= n && Decode(stream, m) != []
    ensures Decode(stream, n) == Decode(stream, m)
  {
    hide Run;
    MoreRoom(stream[0] % 32, stream[1..], [], m, n);
  }

  // ----- what cannot be compressed -----

  /** The three bytes at `p` come again at `q`. */
  ghost predicate Again(s: seq<byte>, p: nat, q: nat) {
    p < q && q + 3 <= |s| && s[p] == s[q] && s[p + 1] == s[q + 1] && s[p + 2] == s[q + 2]
  }

  /** No three bytes come again. */
  ghost predicate NoRepeats(s: seq<byte>) {
    forall p: nat, q: nat :: !Again(s, p, q)
  }

  lemma {:induction false} PartNoRepeats(s: seq<byte>, lo: nat, hi: nat)
    requires NoRepeats(s) && lo <= hi <= |s|
    ensures NoRepeats(s[lo..hi])
  {
    forall p: nat, q: nat
      ensures !Again(s[lo..hi], p, q)
    {
      assert !Again(s, lo + p, lo + q);
    }
  }

  /** What has been produced stays. */
  lemma {:induction false} RunExtends(ctrl: byte, rest: seq<byte>, out: seq<byte>, maxout: nat)
    requires |out| <= maxout && Run(ctrl, rest, out, maxout) != []
    ensures out <= Run(ctrl, rest, out, maxout)
    decreases |rest|
  {
    hide ReadMatch;
    if ctrl >= 32 {
      var m := ReadMatch(ctrl, rest);
      if m.rest != [] {
        RunExtends(m.rest[0], m.rest[1..], LzCopy(out, m.dist, m.len), maxout);
      }
    } else {
      var n := ctrl + 1;
      if n < |rest| {
        RunExtends(rest[n], rest[n + 1..], out + rest[..n], maxout);
      }
    }
  }

  lemma {:induction false} MatchIsLong(ctrl: byte, rest: seq<byte>)
    requires ctrl >= 32 && ReadMatch(ctrl, rest).Match?
    ensures ReadMatch(ctrl, rest).len >= 3
  {
    hide ReadChain;
  }

  /** A match repeats at least three bytes. */
  lemma {:induction false} CopyRepeats(out: seq<byte>, dist: nat, len: nat, s: seq<byte>)
    requires 1 <= dist <= |out| && len >= 3 && LzCopy(out, dist, len) <= s
    ensures !NoRepeats(s)
  {
    var r := LzCopy(out, dist, len);
    var q := |out|;
    assert r[q] == r[q - dist] && r[q + 1] == r[q + 1 - dist] && r[q + 2] == r[q + 2 - dist];
    assert Again(s, q - dist, q);
  }

  lemma {:induction false} LiteralsOnly(ctrl: byte, rest: seq<byte>, out: seq<byte>, maxout: nat, s: seq<byte>)
    requires |out| <= maxout && Run(ctrl, rest, out, maxout) == s != [] && NoRepeats(s)
    ensures |out| <= |s| <= |rest| + |out|
    decreases |rest|
  {
    hide ReadMatch, LzCopy, NoRepeats;
    if ctrl >= 32 {
      var m := ReadMatch(ctrl, rest);
      if m.rest != [] {
        var copied := LzCopy(out, m.dist, m.len);
        RunExtends(m.rest[0], m.rest[1..], copied, maxout);
        MatchIsLong(ctrl, rest);
        CopyRepeats(out, m.dist, m.len, s);
      }
    } else {
      var n := ctrl + 1;
      if n < |rest| {
        LiteralsOnly(rest[n], rest[n + 1..], out + rest[..n], maxout, s);
      }
    }
  }

  /** Whatever the encoder does, a string in which no three bytes come again has no form that is not longer. */
  lemma {:induction false} Incompressible(stream: seq<byte>, maxout: nat, s: seq<byte>)
    requires Decode(stream, maxout) == s != [] && NoRepeats(s)
    ensures |stream| > |s|
  {
    hide Run, NoRepeats;
    LiteralsOnly(stream[0] % 32, stream[1..], [], maxout, s);
  }

  // ----- writing -----

  /** What the encoder emits for a match with biased length `len` (real length - 2) and biased
      distance `dist` (real distance - 1): the four MATCH macros. */
  function MatchBytes(len: nat, dist: nat): (s: seq<byte>)
    requires 1 <= len && dist + 1 < MAX_FARDISTANCE
    ensures |s| >= 2 && s[0] >= 32
  {
    if dist < MAX_DISTANCE then
      if len < 7 then [len * 32 + dist / 256, dist % 256]
      else [7 * 32 + dist / 256] + ChainBytes(len - 7) + [dist % 256]
    else
      var far := dist - MAX_DISTANCE;
      if len < 7 then [len * 32 + 31, 255, far / 256, far % 256]
      else [7 * 32 + 31] + ChainBytes(len - 7) + [255, far / 256, far % 256]
  }

  /** A run of 1 to 32 literals behind its biased count. */
  function LiteralBytes(lits: seq<byte>): (s: seq<byte>)
    requires 1 <= |lits| <= MAX_COPY
  {
    [|lits| - 1] + lits
  }

  // ----- reading back -----

  lemma {:induction false} ChainRoundTrip(n: nat, after: seq<byte>)
    requires |after| >= 1
    ensures ReadChain(ChainBytes(n) + after) == Chain(n, after)
    decreases n
  {
    if n < 255 {
      assert ([n] + after)[1..] == after;
    } else {
      ChainRoundTrip(n - 255, after);
      assert (ChainBytes(n) + after)[1..] == ChainBytes(n - 255) + after;
    }
  }

  /** Every match the encoder writes is read back with its real length and distance. */
  lemma {:induction false} MatchRoundTrip(len: nat, dist: nat, after: seq<byte>)
    requires 1 <= len && dist + 1 < MAX_FARDISTANCE && |after| >= 1
    ensures ReadMatch(MatchBytes(len, dist)[0], MatchBytes(len, dist)[1..] + after) == Match(len + 2, dist + 1, after)
  {
    hide ReadChain, ChainBytes;
    var s := MatchBytes(len, dist);
    var rest := s[1..] + after;
    if dist < MAX_DISTANCE {
      var low := [dist % 256] + after;
      if len >= 7 {
        ChainRoundTrip(len - 7, low);
        assert rest == ChainBytes(len - 7) + low;
      } else {
        assert rest == low;
      }
      assert low[1..] == after;
    } else {
      var far := dist - MAX_DISTANCE;
      var low := [255, far / 256, far % 256] + after;
      if len >= 7 {
        ChainRoundTrip(len - 7, low);
        assert rest == ChainBytes(len - 7) + low;
      } else {
        assert rest == low;
      }
      assert low[3..] == after;
    }
  }

  /** Whatever is appended to `done`, the decoder gets through `done` with `made` produced. */
  ghost predicate Decodes(done: seq<byte>, made: seq<byte>, maxout: nat) {
    && |made| <= maxout
    && forall c: byte, tail: seq<byte> {:trigger Decode(done + [c] + tail, maxout)} :: (done == [] ==> c < 32) ==>
      Decode(done + [c] + tail, maxout) == Run(c, tail, made, maxout)
  }

  lemma {:induction false} NothingDecoded(maxout: nat)
    ensures Decodes([], [], maxout)
  {
    forall c: byte, tail: seq<byte> | c < 32
      ensures Decode([] + [c] + tail, maxout) == Run(c, tail, [], maxout)
    {
      assert ([] + [c] + tail)[1..] == tail;
    }
  }

  /** A finished literal run extends the output by its literals. */
  lemma {:induction false} DecodesLiterals(done: seq<byte>, made: seq<byte>, lits: seq<byte>, maxout: nat)
    requires Decodes(done, made, maxout) && 1 <= |lits| <= MAX_COPY && |made| + |lits| <= maxout
    ensures Decodes(done + LiteralBytes(lits), made + lits, maxout)
  {
    hide ReadMatch, LzCopy;
    forall c: byte, tail: seq<byte>
      ensures Decode(done + LiteralBytes(lits) + [c] + tail, maxout) == Run(c, tail, made + lits, maxout)
    {
      var k: byte := |lits| - 1;
      var rest := lits + [c] + tail;
      assert done + LiteralBytes(lits) + [c] + tail == done + [k] + rest;
      assert rest[..k + 1] == lits && rest[k + 1 + 1..] == tail;
    }
  }

  lemma {:induction false} RunMatch(len: nat, dist: nat, c: byte, tail: seq<byte>, made: seq<byte>, maxout: nat)
    requires 1 <= len && dist + 1 < MAX_FARDISTANCE && dist + 1 <= |made| && |made| + len + 2 <= maxout
    ensures var s := MatchBytes(len, dist);
      Run(s[0], s[1..] + ([c] + tail), made, maxout) == Run(c, tail, LzCopy(made, dist + 1, len + 2), maxout)
  {
    hide MatchBytes, ReadMatch, LzCopy;
    var after := [c] + tail;
    MatchRoundTrip(len, dist, after);
    assert after[1..] == tail;
  }

  /** A finished match extends the output by its LZ copy. */
  lemma {:induction false} DecodesMatch(done: seq<byte>, made: seq<byte>, len: nat, dist: nat, maxout: nat)
    requires Decodes(done, made, maxout) && done != []
    requires 1 <= len && dist + 1 < MAX_FARDISTANCE && dist + 1 <= |made| && |made| + len + 2 <= maxout
    ensures Decodes(done + MatchBytes(len, dist), LzCopy(made, dist + 1, len + 2), maxout)
  {
    var s := MatchBytes(len, dist);
    var copied := LzCopy(made, dist + 1, len + 2);
    forall c: byte, tail: seq<byte>
      ensures Decode(done + s + [c] + tail, maxout) == Run(c, tail, copied, maxout)
    {
      RunMatch(len, dist, c, tail, made, maxout);
      DecodesAt(done, made, s, [c] + tail, maxout);
      assert done + s + [c] + tail == done + s + ([c] + tail);
    }
  }

  lemma {:induction false} DecodesAt(done: seq<byte>, made: seq<byte>, s: seq<byte>, after: seq<byte>, maxout: nat)
    requires Decodes(done, made, maxout) && done != [] && |s| >= 1
    ensures Decode(done + s + after, maxout) == Run(s[0], s[1..] + after, made, maxout)
  {
    assert done + s + after == done + [s[0]] + (s[1..] + after);
  }

  // ----- the bytes in numbers -----

  /** `k` bytes of 255 and a smaller one. */
  function Chained(k: nat, c: byte): (s: seq<byte>)
    ensures |s| == k + 1 && s[k] == c && forall i :: 0 <= i < k ==> s[i] == 255
  {
    seq(k, _ => 255) + [c]
  }

  /** A chain is read as the sum of its bytes. */
  lemma {:induction false} ReadChained(k: nat, c: byte, after: seq<byte>)
    requires c < 255 && after != []
    ensures ReadChain(Chained(k, c) + after) == Chain(255 * k + c, after)
    decreases k
  {
    var rest := Chained(k, c) + after;
    if k == 0 {
      assert rest[1..] == after;
    } else {
      assert rest[1..] == Chained(k - 1, c) + after;
      ReadChained(k - 1, c, after);
    }
  }

  /** And it is what the encoder writes for the sum. */
  lemma {:induction false} WrittenChained(k: nat, c: byte)
    requires c < 255
    ensures ChainBytes(255 * k + c) == Chained(k, c)
    decreases k
  {
    if k == 0 {
      assert Chained(0, c) == [c];
    } else {
      WrittenChained(k - 1, c);
      assert Chained(k, c) == [255] + Chained(k - 1, c);
    }
  }

  /** `s` is a match of real length `len` and distance `dist`, whatever follows. */
  ghost predicate Means(s: seq<byte>, len: nat, dist: nat) {
    && s != [] && s[0] >= 32
    && forall after: seq<byte> {:trigger s[1..] + after} :: after != [] ==> ReadMatch(s[0], s[1..] + after) == Match(len, dist, after)
  }

  /** The eight forms of a match behind its control byte: 3 to 8 bytes or a chain, near or far. */
  lemma {:induction false} NearMeans(len: nat, h: nat, lo: byte)
    requires 1 <= len <= 6 && h < 32 && (h < 31 || lo < 255)
    ensures Means([32 * len + h, lo], len + 2, 256 * h + lo + 1)
  {
    hide ReadChain;
    var s := [32 * len + h, lo];
    forall after: seq<byte> | after != []
      ensures ReadMatch(s[0], s[1..] + after) == Match(len + 2, 256 * h + lo + 1, after)
    {
      var rest := [lo] + after;
      assert rest[1..] == after && s[1..] + after == rest;
    }
  }

  lemma {:induction false} FarMeans(len: nat, hi: byte, lo: byte)
    requires 1 <= len <= 6
    ensures Means([32 * len + 31, 255, hi, lo], len + 2, 256 * hi + lo + 8192)
  {
    hide ReadChain;
    var s := [32 * len + 31, 255, hi, lo];
    forall after: seq<byte> | after != []
      ensures ReadMatch(s[0], s[1..] + after) == Match(len + 2, 256 * hi + lo + 8192, after)
    {
      var rest := [255, hi, lo] + after;
      assert rest[3..] == after && s[1..] + after == rest;
    }
  }

  lemma {:induction false} NearLongMeans(k: nat, c: byte, h: nat, lo: byte)
    requires c < 255 && h < 32 && (h < 31 || lo < 255)
    ensures Means([224 + h] + Chained(k, c) + [lo], 255 * k + c + 9, 256 * h + lo + 1)
  {
    hide ReadChain, Chained;
    var s := [224 + h] + Chained(k, c) + [lo];
    forall after: seq<byte> | after != []
      ensures ReadMatch(s[0], s[1..] + after) == Match(255 * k + c + 9, 256 * h + lo + 1, after)
    {
      var low := [lo] + after;
      assert s[1..] + after == Chained(k, c) + low && low[1..] == after;
      ReadChained(k, c, low);
    }
  }

  lemma {:induction false} FarLongMeans(k: nat, c: byte, hi: byte, lo: byte)
    requires c < 255
    ensures Means([255] + Chained(k, c) + [255, hi, lo], 255 * k + c + 9, 256 * hi + lo + 8192)
  {
    hide ReadChain, Chained;
    var s := [255] + Chained(k, c) + [255, hi, lo];
    forall after: seq<byte> | after != []
      ensures ReadMatch(s[0], s[1..] + after) == Match(255 * k + c + 9, 256 * hi + lo + 8192, after)
    {
      var low := [255, hi, lo] + after;
      assert s[1..] + after == Chained(k, c) + low && low[3..] == after;
      ReadChained(k, c, low);
    }
  }

  /** What means a match extends the output by it. */
  lemma {:induction false} DecodesMeaning(done: seq<byte>, made: seq<byte>, s: seq<byte>, len: nat, dist: nat, maxout: nat)
    requires Decodes(done, made, maxout) && done != [] && Means(s, len, dist) && 1 <= dist <= |made| && |made| + len <= maxout
    ensures Decodes(done + s, LzCopy(made, dist, len), maxout)
  {
    hide ReadMatch, LzCopy;
    var copied := LzCopy(made, dist, len);
    forall c: byte, tail: seq<byte>
      ensures Decode(done + s + [c] + tail, maxout) == Run(c, tail, copied, maxout)
    {
      var after := [c] + tail;
      DecodesAt(done, made, s, after, maxout);
      assert ReadMatch(s[0], s[1..] + after) == Match(len, dist, after);
      assert after[1..] == tail;
      assert done + s + [c] + tail == done + s + after;
    }
  }

  /** Three to eight bytes from up to 8191 back: two bytes. */
  lemma {:induction false} DecodesNear(done: seq<byte>, made: seq<byte>, len: nat, h: nat, lo: byte, maxout: nat)
    requires Decodes(done, made, maxout) && done != [] && 1 <= len <= 6 && h < 32 && (h < 31 || lo < 255)
    requires 256 * h + lo + 1 <= |made| && |made| + len + 2 <= maxout
    ensures Decodes(done + [32 * len + h, lo], LzCopy(made, 256 * h + lo + 1, len + 2), maxout)
  {
    hide Means, LzCopy, Decodes;
    NearMeans(len, h, lo);
    DecodesMeaning(done, made, [32 * len + h, lo], len + 2, 256 * h + lo + 1, maxout);
  }

  /** From farther back: an escape and two bytes of distance, counted from 8192. */
  lemma {:induction false} DecodesFar(done: seq<byte>, made: seq<byte>, len: nat, hi: byte, lo: byte, maxout: nat)
    requires Decodes(done, made, maxout) && done != [] && 1 <= len <= 6
    requires 256 * hi + lo + 8192 <= |made| && |made| + len + 2 <= maxout
    ensures Decodes(done + [32 * len + 31, 255, hi, lo], LzCopy(made, 256 * hi + lo + 8192, len + 2), maxout)
  {
    hide Means, LzCopy, Decodes;
    FarMeans(len, hi, lo);
    DecodesMeaning(done, made, [32 * len + 31, 255, hi, lo], len + 2, 256 * hi + lo + 8192, maxout);
  }

  /** Nine bytes and more: a chain of bytes that are added up stands before the distance. */
  lemma {:induction false} DecodesNearLong(done: seq<byte>, made: seq<byte>, k: nat, c: byte, h: nat, lo: byte, maxout: nat)
    requires Decodes(done, made, maxout) && done != [] && c < 255 && h < 32 && (h < 31 || lo < 255)
    requires 256 * h + lo + 1 <= |made| && |made| + 255 * k + c + 9 <= maxout
    ensures Decodes(done + ([224 + h] + Chained(k, c) + [lo]), LzCopy(made, 256 * h + lo + 1, 255 * k + c + 9), maxout)
  {
    hide Means, LzCopy, Decodes, Chained;
    NearLongMeans(k, c, h, lo);
    DecodesMeaning(done, made, [224 + h] + Chained(k, c) + [lo], 255 * k + c + 9, 256 * h + lo + 1, maxout);
  }

  lemma {:induction false} DecodesFarLong(done: seq<byte>, made: seq<byte>, k: nat, c: byte, hi: byte, lo: byte, maxout: nat)
    requires Decodes(done, made, maxout) && done != [] && c < 255
    requires 256 * hi + lo + 8192 <= |made| && |made| + 255 * k + c + 9 <= maxout
    ensures Decodes(done + ([255] + Chained(k, c) + [255, hi, lo]), LzCopy(made, 256 * hi + lo + 8192, 255 * k + c + 9), maxout)
  {
    hide Means, LzCopy, Decodes, Chained;
    FarLongMeans(k, c, hi, lo);
    DecodesMeaning(done, made, [255] + Chained(k, c) + [255, hi, lo], 255 * k + c + 9, 256 * hi + lo + 8192, maxout);
  }

  /** One to 32 bytes as they are, their number less one in front. */
  lemma {:induction false} DecodesPlain(done: seq<byte>, made: seq<byte>, lits: seq<byte>, maxout: nat)
    requires Decodes(done, made, maxout) && 1 <= |lits| <= 32 && |made| + |lits| <= maxout
    ensures Decodes(done + ([|lits| - 1] + lits), made + lits, maxout)
    ensures Decode(done + ([|lits| - 1] + lits), maxout) == made + lits
  {
    hide Decodes;
    DecodesLiterals(done, made, lits, maxout);
    DecodesLast(done, made, lits, maxout);
  }

  /** What the encoder writes for a match, by its real length and distance. */
  lemma {:induction false} WrittenMatch(len: nat, dist: nat)
    requires 3 <= len && 1 <= dist <= 73724
    ensures dist < MAX_FARDISTANCE
    ensures var s, lo := MatchBytes(len - 2, dist - 1), (dist - 1) % 256;
      if dist < 8192 then s == (if len < 9 then [32 * (len - 2) + (dist - 1) / 256] else [224 + (dist - 1) / 256] + Chained((len - 9) / 255, (len - 9) % 255)) + [lo]
      else s == (if len < 9 then [32 * (len - 2) + 31] else [255] + Chained((len - 9) / 255, (len - 9) % 255)) + [255, (dist - 8192) / 256, (dist - 8192) % 256]
  {
    hide ChainBytes, Chained;
    if len >= 9 {
      WrittenChained((len - 9) / 255, (len - 9) % 255);
    }
  }

  /** The stream may end with a literal run, and then everything has been produced. */
  lemma {:induction false} DecodesLast(done: seq<byte>, made: seq<byte>, lits: seq<byte>, maxout: nat)
    requires Decodes(done, made, maxout) && 1 <= |lits| <= MAX_COPY && |made| + |lits| <= maxout
    ensures Decode(done + LiteralBytes(lits), maxout) == made + lits
  {
    hide ReadMatch, LzCopy;
    var k: byte := |lits| - 1;
    assert done + LiteralBytes(lits) == done + [k] + lits;
  }

  /** The stream marker set in the top bits of the first byte does not disturb decoding. */
  lemma {:induction false} MarkerIgnored(stream: seq<byte>, marked: seq<byte>, maxout: nat)
    requires |stream| == |marked| >= 1 && stream[1..] == marked[1..] && stream[0] % 32 == marked[0] % 32
    ensures Decode(stream, maxout) == Decode(marked, maxout)
  {
  }
}
