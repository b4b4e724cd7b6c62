// blosclz_compress: hash-table match finding, literal runs whose count byte is patched
// afterwards, and the round trip with the decoder.

module BloscLzEncoder {
  import opened Bytes
  import opened LzCopies
  import opened Stores
  import opened BloscLzFormat
  import BloscLzDecoder

  // ----- the pending literal run -----

  /** `out` is a finished part, a placeholder count and `copy` literals not yet counted; the
      finished part decodes to the input before those literals. At the end of the input an
      empty run is dropped, so then the finished part must decode to the whole of it. */
  ghost predicate Open(out: seq<byte>, done: seq<byte>, input: seq<byte>, pos: nat, copy: nat) {
    && copy <= pos <= |input| && copy < MAX_COPY
    && out == done + [31] + input[pos - copy..pos]
    && Decodes(done, input[..pos - copy], |input|)
    && (done == [] ==> pos == copy)
    && (copy == 0 && pos == |input| ==> Decode(done, |input|) == input)
  }

  lemma {:induction false} OpenGrows(out: seq<byte>, done: seq<byte>, input: seq<byte>, pos: nat, copy: nat)
    requires Open(out, done, input, pos, copy) && pos < |input| && copy + 1 < MAX_COPY
    ensures Open(out + [input[pos]], done, input, pos + 1, copy + 1)
  {
    hide Run, Decode, Decodes, LzCopy;
    assert input[pos - copy..pos + 1] == input[pos - copy..pos] + [input[pos]];
  }

  /** Writing the true count over the placeholder finishes the run. */
  lemma {:induction false} OpenCloses(out: seq<byte>, done: seq<byte>, input: seq<byte>, pos: nat, copy: nat)
    requires Open(out, done, input, pos, copy)
    ensures |done| < |out| && Decodes(Closed(out, copy), input[..pos], |input|)
    ensures pos > 0 ==> Closed(out, copy) != []
  {
    hide Run, Decode, Decodes, LzCopy;
    if copy > 0 {
      var lits := input[pos - copy..pos];
      DecodesLiterals(done, input[..pos - copy], lits, |input|);
      assert Closed(out, copy) == done + LiteralBytes(lits);
      assert input[..pos - copy] + lits == input[..pos];
    } else {
      assert Closed(out, copy) == done;
    }
  }

  /** The output after the count of the pending run has been fixed (or its placeholder dropped). */
  function Closed(out: seq<byte>, copy: nat): seq<byte>
    requires copy < |out| && copy <= MAX_COPY
  {
    if copy > 0 then out[|out| - copy - 1 := copy - 1] else out[..|out| - 1]
  }

  lemma {:induction false} ClosedDecodes(out: seq<byte>, done: seq<byte>, input: seq<byte>, copy: nat)
    requires Open(out, done, input, |input|, copy) && |input| > 0
    ensures |done| < |out| && Closed(out, copy) != [] && Decode(Closed(out, copy), |input|) == input
  {
    hide Run, Decode, Decodes, LzCopy;
    if copy > 0 {
      var lits := input[|input| - copy..];
      DecodesLast(done, input[..|input| - copy], lits, |input|);
      assert Closed(out, copy) == done + LiteralBytes(lits);
    } else {
      assert Closed(out, copy) == done;
    }
  }

  /** A full run needs no patch: its placeholder already is the count of 32 literals. */
  lemma {:induction false} OpenFills(out: seq<byte>, done: seq<byte>, input: seq<byte>, pos: nat, copy: nat)
    requires Open(out, done, input, pos, copy) && pos < |input| && copy + 1 == MAX_COPY
    ensures Open(out + [input[pos]] + [31], out + [input[pos]], input, pos + 1, 0)
  {
    hide Run, Decode, Decodes, LzCopy;
    var lits := input[pos - copy..pos + 1];
    DecodesLiterals(done, input[..pos - copy], lits, |input|);
    DecodesLast(done, input[..pos - copy], lits, |input|);
    assert out + [input[pos]] == done + LiteralBytes(lits);
    assert input[..pos - copy] + lits == input[..pos + 1];
    assert input[..|input|] == input;
  }

  /** A genuine match written after a closed run opens the next run. */
  lemma {:induction false} OpenAfterMatch(closed: seq<byte>, input: seq<byte>, pos: nat, len: nat, dist: nat)
    requires closed != [] && pos <= |input| && Decodes(closed, input[..pos], |input|)
    requires Genuine(input, pos, len, dist)
    ensures var done := closed + MatchBytes(len, dist); Open(done + [31], done, input, pos + len + 2, 0)
  {
    hide Run, Decode, Decodes, LzCopy, MatchBytes;
    DecodesMatch(closed, input[..pos], len, dist, |input|);
    GenuineMatch(input, pos, dist + 1, len + 2);
    assert input[pos + len + 2..pos + len + 2] == [];
  }

  /** The match with biased length `len` and biased distance `dist` repeats earlier input. */
  ghost predicate Genuine(input: seq<byte>, pos: nat, len: nat, dist: nat) {
    && 1 <= len && dist < pos && dist + 1 < MAX_FARDISTANCE && pos + len + 2 < |input|
    && forall i :: pos <= i < pos + len + 2 ==> input[i] == input[i - (dist + 1)]
  }

  // ----- how much is written -----

  /** The finished part never exceeds the bytes it covers by more than one in 32. */
  ghost predicate Thrifty(done: seq<byte>, covered: int) {
    |done| <= covered + covered / 32
  }

  lemma {:induction false} LongMatchSize(len: nat, dist: nat)
    requires 3 <= len && dist < MAX_DISTANCE
    ensures |MatchBytes(len, dist)| <= 3 + len / 255
  {
    hide ChainBytes;
  }

  /** In such a string the comparison with an earlier place ends at the bound. */
  lemma {:induction false} UniformStops(input: seq<byte>, ip: nat, p: nat, stop: nat)
    requires Uniform(input) && p < ip && ip + 4 < |input|
    ensures input[p..p + 4] == input[ip..ip + 4]
    ensures StopsBehind(input, ip + 4, |input| - 1, ip - p, stop) ==> stop == |input| - 1
  {
  }

  /** A match covers more bytes than it takes, with the count byte of the run behind it. */
  lemma {:induction false} MatchShort(len: nat, dist: nat)
    requires 3 <= len && dist + 1 < MAX_FARDISTANCE && (dist >= MAX_DISTANCE ==> len >= 6)
    ensures |MatchBytes(len, dist)| + 1 <= len + 2
  {
    hide ChainBytes;
  }

  // ----- finding matches -----

  function HashSize(hashlog: nat): (n: nat)
    requires 12 <= hashlog <= 14
    ensures n <= 16384
  {
    if hashlog == 12 then 4096 else if hashlog == 13 then 8192 else 16384
  }

  /** HASH_FUNCTION: the top `hashlog` bits of the 32-bit product. */
  function Hash(v: nat, hashlog: nat): (h: nat)
    requires 12 <= hashlog <= 14
    ensures h < HashSize(hashlog)
  {
    v * 2654435761 % 0x1_0000_0000 / (0x1_0000_0000 / HashSize(hashlog))
  }

  /** Every table entry in use lies before `ip`. */
  ghost predicate TableBehind(htab: seq<nat>, hashlog: nat, ip: nat)
    requires 12 <= hashlog <= 14
  {
    |htab| == 16384 && forall h :: 0 <= h < HashSize(hashlog) ==> htab[h] < ip
  }

  /** The bytes from `start` up to, not including, the last one before `e` repeat at distance `dist`,
      and `e` is the bound or lies just behind the first difference. */
  ghost predicate StopsBehind(input: seq<byte>, start: nat, bound: nat, dist: nat, e: nat)
    requires 1 <= dist <= start <= bound <= |input|
  {
    && start <= e <= bound
    && (forall i :: start <= i < e - 1 ==> input[i] == input[i - dist])
    && (e == bound || (e > start && input[e - 1] != input[e - 1 - dist]))
  }

  /** Walks over equal bytes and one past the difference known to lie before `stop`. */
  method PastDifference(input: seq<byte>, start: nat, ghost stop: nat, dist: nat) returns (ip: nat)
    requires 1 <= dist <= start <= stop <= |input|
    requires exists i :: start <= i < stop && input[i] != input[i - dist]
    ensures start < ip <= stop && input[ip - 1] != input[ip - 1 - dist]
    ensures forall i :: start <= i < ip - 1 ==> input[i] == input[i - dist]
  {
    ip := start;
    while input[ip - dist] == input[ip]
      invariant start <= ip < stop
      invariant exists i :: ip <= i < stop && input[i] != input[i - dist]
      invariant forall i :: start <= i < ip ==> input[i] == input[i - dist]
      decreases stop - ip
    {
      ip := ip + 1;
    }
    ip := ip + 1;
  }

  /** get_match and get_match_16: blocks of `width` bytes, then single bytes; both cursors step past a difference. */
  method GetMatch(input: seq<byte>, start: nat, bound: nat, dist: nat, width: nat) returns (ip: nat)
    requires 1 <= dist <= start <= bound <= |input| && width >= 1
    ensures StopsBehind(input, start, bound, dist, ip)
  {
    ip := start;
    while ip + width < bound
      invariant start <= ip <= bound
      invariant forall i :: start <= i < ip ==> input[i] == input[i - dist]
    {
      BlocksDiffer(input, ip, dist, width);
      if input[ip - dist..ip - dist + width] != input[ip..ip + width] {
        ip := PastDifference(input, ip, ip + width, dist);
        return;
      }
      ip := ip + width;
    }
    while ip < bound
      invariant start <= ip <= bound
      invariant forall i :: start <= i < ip ==> input[i] == input[i - dist]
    {
      ip := ip + 1;
      if input[ip - 1 - dist] != input[ip - 1] {
        return;
      }
    }
  }

  lemma {:induction false} BlocksDiffer(input: seq<byte>, ip: nat, dist: nat, width: nat)
    requires 1 <= dist <= ip && ip + width <= |input|
    ensures input[ip - dist..ip - dist + width] == input[ip..ip + width]
      <==> forall i :: ip <= i < ip + width ==> input[i] == input[i - dist]
  {
    if input[ip - dist..ip - dist + width] == input[ip..ip + width] {
      forall i | ip <= i < ip + width
        ensures input[i] == input[i - dist]
      {
        assert input[ip..ip + width][i - ip] == input[ip - dist..ip - dist + width][i - ip];
      }
    }
  }

  /** get_run: compares the bytes behind the cursor with the repeated byte, eight at a time. */
  method GetRun(input: seq<byte>, start: nat, bound: nat) returns (ip: nat)
    requires 1 <= start <= bound <= |input|
    ensures StopsBehind(input, start, bound, 1, ip)
  {
    var x := input[start - 1];
    ip := start;
    while ip + 8 < bound
      invariant start <= ip <= bound
      invariant forall i :: start - 1 <= i < ip - 1 ==> input[i] == x
      invariant ip == start || input[ip - 2] == x
    {
      if exists k :: ip - 1 <= k < ip + 7 && input[k] != x {
        ghost var stop := ip + 7;
        while input[ip - 1] == x
          invariant start <= ip <= stop
          invariant exists k :: ip - 1 <= k < stop && input[k] != x
          invariant forall i :: start - 1 <= i < ip - 1 ==> input[i] == x
          decreases stop - ip
        {
          ip := ip + 1;
        }
        assert ip > start;
        assert input[ip - 2] == x;
        return;
      }
      ip := ip + 8;
    }
    while ip < bound && input[ip - 1] == x
      invariant start <= ip <= bound
      invariant forall i :: start - 1 <= i < ip - 1 ==> input[i] == x
      invariant ip == start || input[ip - 2] == x
    {
      ip := ip + 1;
    }
    if ip < bound {
      assert ip > start && input[ip - 2] == x;
    }
  }

  /** Looks the current four bytes up, records the position, and tests the candidate: within the far
      distance and equal in four bytes. The real distance is returned. */
  method Candidate(input: seq<byte>, htab: array<nat>, ip: nat, hashlog: nat) returns (found: bool, distance: nat)
    requires 12 <= hashlog <= 14 && 4 <= ip && ip + 4 <= |input| && TableBehind(htab[..], hashlog, ip)
    modifies htab
    ensures TableBehind(htab[..], hashlog, ip + 1)
    ensures var h := Hash(Le32(input[ip..]), hashlog); htab[..] == old(htab[..])[h := ip] && distance == ip - old(htab[h])
    ensures 1 <= distance <= ip && (found <==> distance < 73725 && input[ip - distance..ip - distance + 4] == input[ip..ip + 4])
    ensures found ==> distance < MAX_FARDISTANCE && forall i :: ip <= i < ip + 4 ==> input[i] == input[i - distance]
  {
    var h := Hash(Le32(input[ip..]), hashlog);
    var ref := htab[h];
    distance := ip - ref;
    htab[h] := ip;
    found := distance != 0 && distance < MAX_FARDISTANCE && Le32(input[ref..]) == Le32(input[ip..]);
    EqualLoads(input, ref, ip);
    if found {
      Le32Injective(input[ref..], input[ip..]);
      forall i | ip <= i < ip + 4
        ensures input[i] == input[i - distance]
      {
        assert input[ref..][..4][i - ip] == input[ip..][..4][i - ip];
      }
    }
  }

  /** The search at one position: candidate, extension, length bias and the rule against short far matches. A candidate
      is taken exactly when it is near enough, agrees in four bytes, and gives `minlen` bytes, six when it is far;
      `stop` is where the comparison ended. */
  method FindMatch(input: seq<byte>, htab: array<nat>, ip: nat, hashlog: nat, minlen: nat, width: nat)
    returns (found: bool, len: nat, dist: nat, ghost stop: nat)
    requires 12 <= hashlog <= 14 && (minlen == 3 || minlen == 4) && width >= 1
    requires 4 <= ip && ip + 12 < |input| && TableBehind(htab[..], hashlog, ip)
    modifies htab
    ensures TableBehind(htab[..], hashlog, ip + 1)
    ensures found ==> Genuine(input, ip, len, dist) && len >= minlen && ip + len + 4 <= |input| && (dist >= MAX_DISTANCE ==> len >= 6)
    ensures var p := old(htab[Hash(Le32(input[ip..]), hashlog)]);
      if ip - p < 73725 && input[p..p + 4] == input[ip..ip + 4] then
        && StopsBehind(input, ip + 4, |input| - 1, ip - p, stop)
        && (found <==> stop >= ip + 2 * minlen && (stop > ip + minlen + 5 || ip - p <= 8191))
        && (found ==> dist == ip - p - 1 && len == stop - minlen - ip)
      else !found
  {
    hide StopsBehind;
    var distance: nat;
    len, dist, stop := 0, 0, 0;
    found, distance := Candidate(input, htab, ip, hashlog);
    if !found {
      return;
    }
    dist := distance - 1;
    var e: nat;
    if dist == 0 {
      e := GetRun(input, ip + 4, |input| - 1);
    } else {
      e := GetMatch(input, ip + 4, |input| - 1, distance, width);
    }
    stop := e;
    if e - minlen < ip + minlen || (e - minlen - ip <= 5 && dist >= MAX_DISTANCE) {
      found := false;
    } else {
      len := e - minlen - ip;
      StopsGenuine(input, ip, dist, minlen, e);
    }
  }

  lemma {:induction false} StopsGenuine(input: seq<byte>, ip: nat, dist: nat, minlen: nat, e: nat)
    requires dist < ip && ip + 12 < |input| && StopsBehind(input, ip + 4, |input| - 1, dist + 1, e) && e >= ip + 2 * minlen && minlen >= 3
    requires dist + 1 < MAX_FARDISTANCE && forall i :: ip <= i < ip + 4 ==> input[i] == input[i - (dist + 1)]
    ensures Genuine(input, ip, e - minlen - ip, dist) && e <= |input| - 1
  {
  }

  /** Table entries for the end of a match; level 9 adds a second one. */
  method UpdateTable(input: seq<byte>, htab: array<nat>, ip: nat, hashlog: nat, clevel: nat) returns (next: nat)
    requires 12 <= hashlog <= 14 && ip + 4 <= |input| && TableBehind(htab[..], hashlog, ip + 1)
    modifies htab
    ensures next == ip + 2 && TableBehind(htab[..], hashlog, next)
    ensures var v := Le32(input[ip..]); var once := old(htab[..])[Hash(v, hashlog) := ip];
      htab[..] == if clevel == 9 then once[Hash(v / 256, hashlog) := ip + 1] else once
  {
    var v := Le32(input[ip..]);
    htab[Hash(v, hashlog)] := ip;
    next := ip + 1;
    if clevel == 9 {
      v := v / 256;
      htab[Hash(v, hashlog)] := next;
    }
    next := next + 1;
  }

  // ----- emitting -----

  /** The bytes of 255 in a length chain, with the space checked before each; `left` remains to be written. */
  method EmitFullBytes(output: array<byte>, op0: nat, limit: nat, n: nat) returns (ok: bool, op: nat, left: nat, ghost s: seq<byte>)
    requires op0 <= limit <= output.Length
    modifies output
    ensures Wrote(output[..], op, old(output[..]), op0, s, limit)
    ensures ok ==> left < 255 && s + [left] == ChainBytes(n)
    ensures !ok ==> op0 + |ChainBytes(n)| > limit
  {
    left, op, s := n, op0, [];
    assert output[..][..op0] + [] == output[..][..op0];
    while left >= 255
      invariant Wrote(output[..], op, old(output[..]), op0, s, limit)
      invariant s + ChainBytes(left) == ChainBytes(n)
    {
      if op + 1 > limit {
        return false, op, left, s;
      }
      ghost var before := output[..];
      Put(output, op, [255], limit);
      WroteBoth(old(output[..]), before, output[..], op0, op, op + 1, s, [255], limit);
      assert s + ChainBytes(left) == s + [255] + ChainBytes(left - 255);
      op, left, s := op + 1, left - 255, s + [255];
    }
    ok := true;
  }

  /** The four MATCH macros; when the space runs out the caller gives up. */
  method EmitMatch(output: array<byte>, op0: nat, limit: nat, len: nat, dist: nat) returns (ok: bool, op: nat)
    requires op0 <= limit <= output.Length && 1 <= len && dist + 1 < MAX_FARDISTANCE
    modifies output
    ensures ok ==> Wrote(output[..], op, old(output[..]), op0, MatchBytes(len, dist), limit)
    ensures !ok ==> op0 + |MatchBytes(len, dist)| > limit
    ensures forall i :: limit <= i < output.Length ==> output[i] == old(output[i])
  {
    var near := dist < MAX_DISTANCE;
    var d := if near then dist else dist - MAX_DISTANCE;
    var low: seq<byte> := if near then [d % 256] else [255, d / 256, d % 256];
    var high: byte := if near then d / 256 else 31;
    if len < 7 {
      var s: seq<byte> := [len * 32 + high] + low;
      if op0 + |s| > limit {
        return false, op0;
      }
      Put(output, op0, s, limit);
      assert s == MatchBytes(len, dist);
      return true, op0 + |s|;
    }
    ok, op := EmitLong(output, op0, limit, 7 * 32 + high, len - 7, low);
    assert [7 * 32 + high] + ChainBytes(len - 7) + low == MatchBytes(len, dist);
  }

  /** A long match: control byte, length chain, distance bytes. */
  method EmitLong(output: array<byte>, op0: nat, limit: nat, head: byte, n: nat, low: seq<byte>) returns (ok: bool, op: nat)
    requires op0 <= limit <= output.Length
    modifies output
    ensures ok ==> Wrote(output[..], op, old(output[..]), op0, [head] + ChainBytes(n) + low, limit)
    ensures !ok ==> op0 + 1 + |ChainBytes(n)| + |low| > limit
    ensures forall i :: limit <= i < output.Length ==> output[i] == old(output[i])
  {
    ghost var was := output[..];
    if op0 + 1 > limit {
      return false, op0;
    }
    Put(output, op0, [head], limit);
    ghost var one := output[..];
    var left: nat;
    ghost var s;
    ok, op, left, s := EmitFullBytes(output, op0 + 1, limit, n);
    WroteBoth(was, one, output[..], op0, op0 + 1, op, [head], s, limit);
    if !ok || op + 1 + |low| > limit {
      return false, op;
    }
    ghost var two := output[..];
    Put(output, op, [left] + low, limit);
    WroteBoth(was, two, output[..], op0, op, op + 1 + |low|, [head] + s, [left] + low, limit);
    assert [head] + s + ([left] + low) == [head] + (s + [left]) + low;
    op := op + 1 + |low|;
  }

  /** The LITERAL macro, also used for the bytes left over at the end. */
  method EmitLiteral(output: array<byte>, op0: nat, limit: nat, input: seq<byte>, pos: nat, copy0: nat, ghost done0: seq<byte>)
    returns (ok: bool, op: nat, copy: nat, ghost done: seq<byte>)
    requires op0 <= limit <= output.Length && pos < |input|
    requires Open(output[..op0], done0, input, pos, copy0)
    modifies output
    ensures ok ==> op <= limit && Open(output[..op], done, input, pos + 1, copy)
    ensures Thrifty(done0, pos - copy0) ==> (!ok ==> pos + pos / 32 + 3 > limit) && (ok ==> Thrifty(done, pos + 1 - copy))
    ensures ok <==> op0 + 2 <= limit
    ensures ok && copy0 + 1 < 32 ==> op == op0 + 1 && copy == copy0 + 1
    ensures SameFrom(output[..], old(output[..]), limit)
  {
    ok, op, copy, done := false, op0, copy0, done0;
    if op + 2 > limit {
      return;
    }
    ghost var before := output[..op];
    output[op] := input[pos];
    op, copy := op + 1, copy + 1;
    assert output[..op] == before + [input[pos]];
    if copy == MAX_COPY {
      OpenFills(before, done, input, pos, copy0);
      copy, done := 0, output[..op];
      output[op] := MAX_COPY - 1;
      op := op + 1;
      assert output[..op] == before + [input[pos]] + [31];
    } else {
      OpenGrows(before, done, input, pos, copy0);
    }
    ok := true;
  }

  /** Fixes the count of the pending run, or drops its placeholder when the run is empty. */
  method CloseRun(output: array<byte>, op0: nat, copy: nat) returns (op: nat)
    requires copy < op0 <= output.Length && copy <= MAX_COPY
    modifies output
    ensures op <= op0 && output[..op] == Closed(old(output[..op0]), copy)
    ensures SameFrom(output[..], old(output[..]), op0)
  {
    op := op0;
    if copy > 0 {
      output[op - copy - 1] := copy - 1;
    } else {
      op := op - 1;
    }
  }

  /** A match and the placeholder of the run that follows it. */
  method EmitMatchStep(output: array<byte>, op0: nat, limit: nat, input: seq<byte>, pos: nat, copy: nat,
                       len: nat, dist: nat, ghost done0: seq<byte>)
    returns (ok: bool, op: nat, ghost done: seq<byte>)
    requires op0 <= limit <= output.Length && 0 < pos
    requires Open(output[..op0], done0, input, pos, copy) && Genuine(input, pos, len, dist)
    requires 3 <= len && (dist >= MAX_DISTANCE ==> len >= 6)
    modifies output
    ensures ok ==> op <= limit && Open(output[..op], done, input, pos + len + 2, 0)
    ensures var e := pos + len + 2; Thrifty(done0, pos - copy) ==> (!ok ==> e + e / 32 + 1 > limit) && (ok ==> Thrifty(done, e))
    ensures ok ==> op <= op0 + |MatchBytes(len, dist)| + 1
    ensures !ok ==> op0 + |MatchBytes(len, dist)| + 1 > limit
    ensures SameFrom(output[..], old(output[..]), limit)
  {
    MatchShort(len, dist);
    ClosedSize(output[..op0], done0, input, pos, copy);
    OpenCloses(output[..op0], done0, input, pos, copy);
    op := CloseRun(output, op0, copy);
    ghost var closed := output[..op];
    ghost var was := output[..];
    var op1: nat;
    ok, op1 := EmitMatch(output, op, limit, len, dist);
    if !ok || op1 + 1 > limit {
      return false, op, done0;
    }
    assert output[..op1] == closed + MatchBytes(len, dist) by {
      assert output[..][..op1] == output[..op1] && was[..op] == closed;
    }
    OpenAfterMatch(closed, input, pos, len, dist);
    output[op1] := MAX_COPY - 1;
    op := op1 + 1;
    done := closed + MatchBytes(len, dist);
    assert output[..op] == done + [31];
  }

  lemma {:induction false} ClosedSize(out: seq<byte>, done: seq<byte>, input: seq<byte>, pos: nat, copy: nat)
    requires Open(out, done, input, pos, copy)
    ensures copy < |out| && |Closed(out, copy)| <= |done| + copy + 1
  {
    hide Decodes, Decode;
  }

  /** Compression level thresholds for the probed ratio, and the table size per level. */
  function MinimumRatio(clevel: nat): real
    requires 1 <= clevel <= 9
  {
    [0.0, 2.0, 1.5, 1.2, 1.2, 1.2, 1.2, 1.15, 1.1, 1.0][clevel]
  }

  function HashLog(clevel: nat): (h: nat)
    requires 1 <= clevel <= 9
    ensures 12 <= h <= 14
  {
    if clevel == 1 then 12 else if clevel == 2 then 13 else 14
  }

  /** blosclz_compress. `cratio` is whatever the floating-point probe returned: for every value of it,
      a positive result fits in `maxout` and decodes to the input. It gives up on a low ratio, on short input
      and on small output, but never otherwise when one byte in 32 more than the input fits; and one byte over and
      over takes no more than 12 bytes and one for every 255 of the input. */
  method Compress(clevel: nat, input: seq<byte>, output: array<byte>, maxout: nat, splitBlock: bool, cratio: real, width: nat)
    returns (r: nat)
    requires 1 <= clevel <= 9 && maxout <= output.Length && width >= 1
    modifies output
    ensures r <= maxout
    ensures r > 0 ==> input != [] && Decode(output[..r], |input|) == input
    ensures cratio < MinimumRatio(clevel) || |input| < 16 || maxout < 66 ==> r == 0
    ensures cratio >= MinimumRatio(clevel) && |input| >= 16 && maxout >= 66 && maxout >= |input| + |input| / 32 + 2 ==> r > 0
    ensures cratio >= MinimumRatio(clevel) && |input| > 16 && maxout >= 66 && maxout >= 13 + |input| / 255 && Uniform(input) ==>
      0 < r <= 12 + |input| / 255
    ensures SameFrom(output[..], old(output[..]), maxout)
  {
    hide Open, Decode, MinimumRatio, Uniform, Thrifty;
    if cratio < MinimumRatio(clevel) {
      return 0;
    }
    var minlen := if !splitBlock || cratio < 4.0 then 3 else 4;
    if |input| < 16 || maxout < 66 {
      return 0;
    }
    ghost var done: seq<byte> := [];
    var op: nat := Start(input, output, maxout);
    var ok: bool, ip: nat, copy: nat;
    ok, ip, op, copy, done := MainLoop(clevel, input, output, maxout, op, minlen, width);
    if !ok {
      return 0;
    }
    ok, op, copy, done := LastLiterals(input, output, maxout, ip, op, copy, done);
    if !ok {
      return 0;
    }
    r := Finish(input, output, op, copy, done);
  }

  /** The bytes the main loop left over, as literals. */
  method LastLiterals(input: seq<byte>, output: array<byte>, limit: nat, ip0: nat, op0: nat, copy0: nat, ghost done0: seq<byte>)
    returns (ok: bool, op: nat, copy: nat, ghost done: seq<byte>)
    requires 0 < ip0 <= |input| && op0 <= limit <= output.Length && Open(output[..op0], done0, input, ip0, copy0)
    modifies output
    ensures ok ==> op <= limit && Open(output[..op], done, input, |input|, copy)
    ensures Thrifty(done0, ip0 - copy0) && limit >= |input| + |input| / 32 + 2 ==> ok
    ensures copy0 == 0 && |input| - ip0 <= 3 ==> (op0 + (|input| - ip0) + 1 <= limit ==> ok) && (ok ==> op == op0 + (|input| - ip0))
    ensures SameFrom(output[..], old(output[..]), limit)
  {
    hide Open;
    var ip := ip0;
    ok, op, copy, done := true, op0, copy0, done0;
    while ip < |input|
      invariant 0 < ip <= |input| && op <= limit && Open(output[..op], done, input, ip, copy)
      invariant Thrifty(done0, ip0 - copy0) ==> Thrifty(done, ip - copy)
      invariant ip0 <= ip && (copy0 == 0 && |input| - ip0 <= 3 ==> op - op0 == ip - ip0 == copy)
      invariant SameFrom(output[..], old(output[..]), limit)
    {
      ok, op, copy, done := EmitLiteral(output, op, limit, input, ip, copy, done);
      if !ok {
        return;
      }
      ip := ip + 1;
    }
  }

  /** The first control byte and the first four literals. */
  method Start(input: seq<byte>, output: array<byte>, ghost limit: nat) returns (op: nat)
    requires |input| >= 16 && 66 <= limit <= output.Length
    modifies output
    ensures op == 5 && Open(output[..5], [], input, 4, 4)
    ensures SameFrom(output[..], old(output[..]), limit)
  {
    output[0] := MAX_COPY - 1;
    output[1], output[2], output[3], output[4] := input[0], input[1], input[2], input[3];
    op := 5;
    NothingDecoded(|input|);
    assert input[..0] == [];
    assert output[..5] == [] + [31] + input[0..4];
  }

  /** Every position before the last twelve bytes: a match when a genuine one is found, else a literal. */
  method MainLoop(clevel: nat, input: seq<byte>, output: array<byte>, limit: nat, op0: nat, minlen: nat, width: nat)
    returns (ok: bool, ip: nat, op: nat, copy: nat, ghost done: seq<byte>)
    requires 1 <= clevel <= 9 && (minlen == 3 || minlen == 4) && width >= 1
    requires |input| >= 16 && op0 <= limit <= output.Length && Open(output[..op0], [], input, 4, 4)
    modifies output
    ensures ok ==> 0 < ip <= |input| && op <= limit && Open(output[..op], done, input, ip, copy) && Thrifty(done, ip - copy)
    ensures limit >= |input| + |input| / 32 + 2 ==> ok
    ensures Uniform(input) && |input| > 16 && op0 == 5 ==>
      if ok then copy == 0 && |input| - 3 <= ip && op <= 9 + |input| / 255 else limit < 9 + |input| / 255
    ensures SameFrom(output[..], old(output[..]), limit)
  {
    hide HashLog, Open, Genuine, Uniform, MatchBytes, StopsBehind;
    var hashlog := HashLog(clevel);
    var htab := new nat[16384](_ => 0);
    ip, op, copy, ok, done := 4, op0, 4, true, [];
    while ip + 12 < |input|
      invariant 4 <= ip <= |input| && op <= limit && Open(output[..op], done, input, ip, copy) && Thrifty(done, ip - copy)
      invariant TableBehind(htab[..], hashlog, ip)
      invariant Uniform(input) && |input| > 16 && op0 == 5 ==>
        if ip == 4 then op == 5 && forall h :: 0 <= h < 16384 ==> htab[h] == 0
        else copy == 0 && |input| - 3 <= ip && op <= 9 + |input| / 255
      invariant SameFrom(output[..], old(output[..]), limit)
    {
      var found, len, dist, stop := FindMatch(input, htab, ip, hashlog, minlen, width);
      if ip == 4 && Uniform(input) {
        UniformStops(input, 4, 0, stop);
      }
      if found && dist < MAX_DISTANCE {
        LongMatchSize(len, dist);
      }
      if !found {
        ok, op, copy, done := EmitLiteral(output, op, limit, input, ip, copy, done);
        if !ok {
          return;
        }
        ip := ip + 1;
      } else {
        ok, op, done := EmitMatchStep(output, op, limit, input, ip, copy, len, dist, done);
        if !ok {
          return;
        }
        copy := 0;
        ip := UpdateTable(input, htab, ip + len, hashlog, clevel);
      }
    }
  }

  /** Bit 5 set. */
  function WithMarker(v: byte): (m: byte)
    ensures m % 32 == v % 32
  {
    if v / 32 % 2 == 1 then v else v + 32
  }

  /** The last run is closed and the first byte gets the stream marker. */
  method Finish(ghost input: seq<byte>, output: array<byte>, op: nat, copy: nat, ghost done: seq<byte>) returns (r: nat)
    requires op <= output.Length && |input| > 0 && Open(output[..op], done, input, |input|, copy)
    modifies output
    ensures 0 < r <= op && Decode(output[..r], |input|) == input
    ensures SameFrom(output[..], old(output[..]), op)
  {
    ClosedDecodes(output[..op], done, input, copy);
    r := CloseRun(output, op, copy);
    ghost var plain := output[..r];
    output[0] := WithMarker(output[0]);
    MarkerIgnored(plain, output[..r], |input|);
  }

  /** Compressing and decompressing again restores the input byte for byte; lengths are ints. */
  method RoundTrip(clevel: nat, input: seq<byte>, packed: array<byte>, maxout: nat, splitBlock: bool, cratio: real,
                   width: nat, unpacked: array<byte>, simd: nat)
    returns (r: nat, n: nat)
    requires 1 <= clevel <= 9 && maxout <= packed.Length && width >= 1 && packed != unpacked
    requires (simd == 8 || simd == 16 || simd == 32) && |input| <= unpacked.Length && |input| <= INT_MAX && maxout <= INT_MAX
    modifies packed, unpacked
    ensures r <= maxout && (r > 0 ==> n == |input| && unpacked[..n] == input)
  {
    r := Compress(clevel, input, packed, maxout, splitBlock, cratio, width);
    if r > 0 {
      BloscLzDecoder.ShortAgrees(packed[..r], |input|);
    }
    var astray;
    n, astray := BloscLzDecoder.Decompress(packed[..r], unpacked, |input|, simd);
  }
}
