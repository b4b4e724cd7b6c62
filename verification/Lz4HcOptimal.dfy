// LZ4HC_compress_optimal: prices for the next positions, and the reverse traversal that turns the steps by which
// they were reached into a chain of sequences.

module Lz4HcOptimal {
  import opened Bytes
  import opened Stores
  import opened Lz4Format
  import opened Lz4Encoder
  import opened Lz4HcSearch
  import opened Lz4HcEncoder

  const OPT_NUM := 0x1000
  const TRAILING := 3

  /** LZ4HC_optimal_t: how a position was reached, by a literal (mlen is 1) or by a match, and at what price. */
  datatype Opt = Opt(price: int, off: nat, mlen: nat, litlen: nat)

  function LiteralsPrice(litlen: nat): nat {
    litlen + if litlen >= 15 then 1 + (litlen - 15) / 255 else 0
  }

  function SequencePrice(litlen: nat, mlen: nat): nat
    requires mlen >= MINMATCH
  {
    3 + LiteralsPrice(litlen) + if mlen >= 15 + MINMATCH then 1 + (mlen - (15 + MINMATCH)) / 255 else 0
  }

  /** Prices are sizes: of a sequence, and of last literals behind their token. */
  lemma {:induction false} PricesAreSizes(lits: seq<byte>, off: nat, len: nat)
    requires 1 <= off <= 65535 && len >= 4
    ensures SequencePrice(|lits|, len) == |SequenceBytes(lits, off, len)| && 1 + LiteralsPrice(|lits|) == |LastBytes(lits)|
  {
    hide SequenceBytes, LastBytes, LengthBytes;
    SequenceSize(lits, off, len);
    LastSize(lits);
  }

  // ----- steps and chains of steps -----

  /** The step that begins at position `pos` behind `base`: a literal, or a match that may be emitted. */
  ghost predicate StepFrom(src: seq<byte>, base: nat, pos: nat, mlen: nat, off: nat) {
    if mlen == 1 then off == 0 else Live(src, Found(base + pos, mlen, off))
  }

  /** Position `pos` is reached from an earlier one by the step recorded in it. */
  ghost predicate Reached(src: seq<byte>, base: nat, o: Opt, pos: nat) {
    1 <= o.mlen <= pos && StepFrom(src, base, pos - o.mlen, o.mlen, o.off)
  }

  /** Every position up to `n` is reached; the first is marked with a literal. */
  ghost predicate Steps(src: seq<byte>, base: nat, opt: seq<Opt>, n: nat) {
    && n < |opt| && opt[0].mlen == 1 && opt[0].off == 0
    && forall p: nat :: 1 <= p <= n ==> Reached(src, base, opt[p], p)
  }

  /** Read forwards from `pos`, the steps of `opt` lead through positions before `last` to `end` and not beyond. */
  ghost predicate Tiles(src: seq<byte>, base: nat, opt: seq<Opt>, pos: nat, last: nat, end: nat)
    decreases last - pos
  {
    if pos >= last then pos == end
    else
      && pos < |opt| && 1 <= opt[pos].mlen && StepFrom(src, base, pos, opt[pos].mlen, opt[pos].off)
      && Tiles(src, base, opt, pos + opt[pos].mlen, last, end)
  }

  /** A chain depends only on the entries it passes. */
  lemma {:induction false} TilesKept(src: seq<byte>, base: nat, was: seq<Opt>, now: seq<Opt>, pos: nat, last: nat, end: nat)
    requires Tiles(src, base, was, pos, last, end) && |now| == |was| && forall p :: pos <= p < |was| ==> now[p] == was[p]
    ensures Tiles(src, base, now, pos, last, end)
    decreases last - pos
  {
    hide StepFrom;
    if pos < last {
      TilesKept(src, base, was, now, pos + was[pos].mlen, last, end);
    }
  }

  /** The reverse traversal: the steps by which positions were reached, from the chosen last one back, become steps
      by which to go on, and the chain they form leads from the start through the last step to its end. */
  method Traverse(ghost src: seq<byte>, ghost base: nat, opt: array<Opt>, cur: nat, mlen: nat, off: nat, ghost last: nat)
    requires cur < last <= cur + mlen && StepFrom(src, base, cur, mlen, off) && Steps(src, base, opt[..], cur)
    modifies opt
    ensures Tiles(src, base, opt[..], 0, last, cur + mlen)
    ensures opt[cur].mlen == mlen && opt[cur].off == off
  {
    hide StepFrom;
    ghost var end := cur + mlen;
    var candidate: nat, selectedLength: nat, selectedOffset: nat := cur, mlen, off;
    var going := true;
    while going
      invariant going ==> candidate <= cur && Steps(src, base, opt[..], candidate)
      invariant going ==> 1 <= selectedLength && candidate < last && StepFrom(src, base, candidate, selectedLength, selectedOffset)
      invariant going ==> Tiles(src, base, opt[..], candidate + selectedLength, last, end)
      invariant going && candidate < cur ==> opt[cur].mlen == mlen && opt[cur].off == off
      invariant going && candidate == cur ==> selectedLength == mlen && selectedOffset == off
      invariant !going ==> Tiles(src, base, opt[..], 0, last, end) && opt[cur].mlen == mlen && opt[cur].off == off
      decreases going, candidate
    {
      assert candidate > 0 ==> Reached(src, base, opt[candidate], candidate);
      ghost var was := opt[..];
      var nextLength, nextOffset := opt[candidate].mlen, opt[candidate].off;
      opt[candidate] := opt[candidate].(mlen := selectedLength, off := selectedOffset);
      TilesKept(src, base, was, opt[..], candidate + selectedLength, last, end);
      selectedLength, selectedOffset := nextLength, nextOffset;
      if nextLength > candidate {
        going := false;
      } else {
        forall p: nat | 1 <= p <= candidate - nextLength ensures Reached(src, base, opt[p], p) {
          assert Reached(src, base, was[p], p);
        }
        candidate := candidate - nextLength;
      }
    }
  }

  // ----- prices -----

  lemma {:induction false} LivePieces(src: seq<byte>, m: Found, len: nat)
    requires Live(src, m) && MINMATCH <= len <= m.len
    ensures Live(src, Found(m.start, len, m.off))
  {
    hide Genuine;
    LivePart(src, m, Found(m.start, len, m.off));
  }

  lemma {:induction false} OneMore(src: seq<byte>, base: nat, was: seq<Opt>, now: seq<Opt>, n: nat, p: nat)
    requires Steps(src, base, was, n) && 1 <= p <= n + 1 && p < |was|
    requires |now| == |was| && now == was[p := now[p]] && Reached(src, base, now[p], p)
    ensures Steps(src, base, now, if p == n + 1 then n + 1 else n)
  {
    hide Reached;
    forall q: nat | 1 <= q <= n && q != p ensures Reached(src, base, now[q], q) {
      assert Reached(src, base, was[q], q);
    }
  }

  /** The literals that follow the last match. */
  method TrailingLiterals(ghost src: seq<byte>, ghost base: nat, opt: array<Opt>, last: nat)
    requires Steps(src, base, opt[..], last) && last + TRAILING < opt.Length
    modifies opt
    ensures Steps(src, base, opt[..], last + TRAILING)
  {
    hide Steps;
    for addLit := 1 to TRAILING + 1
      invariant Steps(src, base, opt[..], last + addLit - 1)
    {
      ghost var was := opt[..];
      opt[last + addLit] := Opt(opt[last].price + LiteralsPrice(addLit), 0, 1, addLit);
      OneMore(src, base, was, opt[..], last + addLit - 1, last + addLit);
    }
  }

  /** The prices of the first positions: literals, then ends of the first match. */
  method FirstPrices(ghost src: seq<byte>, ghost base: nat, opt: array<Opt>, llen: nat, matchML: nat, offset: nat)
    requires opt.Length == OPT_NUM + TRAILING && matchML < OPT_NUM
    requires MINMATCH <= matchML && Live(src, Found(base, matchML, offset))
    modifies opt
    ensures Steps(src, base, opt[..], matchML + TRAILING)
  {
    hide Live, LiteralsPrice, SequencePrice;
    opt[0] := Opt(LiteralsPrice(llen), 0, 1, llen);
    for rPos := 1 to MINMATCH
      invariant Steps(src, base, opt[..], rPos - 1)
    {
      ghost var was := opt[..];
      opt[rPos] := Opt(LiteralsPrice(llen + rPos), 0, 1, llen + rPos);
      OneMore(src, base, was, opt[..], rPos - 1, rPos);
    }
    for mlen := MINMATCH to matchML + 1
      invariant Steps(src, base, opt[..], mlen - 1)
    {
      ghost var was := opt[..];
      opt[mlen] := Opt(SequencePrice(llen, mlen), offset, mlen, llen);
      LivePieces(src, Found(base, matchML, offset), mlen);
      OneMore(src, base, was, opt[..], mlen - 1, mlen);
    }
    TrailingLiterals(src, base, opt, matchML);
  }

  /** Literals before a new match at `cur`, where they are cheaper. */
  method LiteralsBefore(ghost src: seq<byte>, ghost base: nat, opt: array<Opt>, cur: nat, ghost n: nat)
    requires Steps(src, base, opt[..], n) && cur + TRAILING <= n
    modifies opt
    ensures Steps(src, base, opt[..], n)
  {
    hide LiteralsPrice, Steps;
    StepsInside(src, base, opt[..], n);
    var baseLitlen := opt[cur].litlen;
    for litlen := 1 to MINMATCH
      invariant Steps(src, base, opt[..], n)
    {
      var price := opt[cur].price - LiteralsPrice(baseLitlen) + LiteralsPrice(baseLitlen + litlen);
      var pos := cur + litlen;
      if price < opt[pos].price {
        ghost var was := opt[..];
        opt[pos] := Opt(price, 0, 1, baseLitlen + litlen);
        OneMore(src, base, was, opt[..], n, pos);
      }
    }
  }

  lemma {:induction false} StepsInside(src: seq<byte>, base: nat, opt: seq<Opt>, n: nat)
    requires Steps(src, base, opt, n)
    ensures n < |opt|
  {
  }

  /** The price of position cur + ml when a match of `ml` bytes begins at `cur`, and the literals before it. */
  function MatchPrice(opt: seq<Opt>, cur: nat, ml: nat): (p: (nat, int))
    requires cur < |opt| && ml >= MINMATCH
  {
    if opt[cur].mlen == 1 then
      var ll := opt[cur].litlen;
      (ll, (if cur > ll then opt[cur - ll].price else 0) + SequencePrice(ll, ml))
    else (0, opt[cur].price + SequencePrice(0, ml))
  }

  /** Ends of the match that begins at `cur`, where they are new or cheaper. */
  method MatchEnds(ghost src: seq<byte>, ghost base: nat, opt: array<Opt>, cur: nat, last0: nat, matchML: nat, offset: nat, favorDecSpeed: bool)
    returns (last: nat)
    requires opt.Length == OPT_NUM + TRAILING && 1 <= cur < last0 < OPT_NUM && cur + matchML < OPT_NUM
    requires MINMATCH <= matchML && Live(src, Found(base + cur, matchML, offset)) && Steps(src, base, opt[..], last0 + TRAILING)
    modifies opt
    ensures last0 <= last < OPT_NUM && last <= (if last0 > cur + matchML then last0 else cur + matchML) && Steps(src, base, opt[..], last)
  {
    hide Live, Steps, MatchPrice;
    last := last0;
    ghost var n := last0 + TRAILING;
    for ml := MINMATCH to matchML + 1
      invariant ml <= matchML ==> last == last0
      invariant last == last0 || last == cur + matchML
      invariant n == (if cur + ml - 1 > last0 + TRAILING then cur + ml - 1 else last0 + TRAILING)
      invariant last0 <= last < OPT_NUM && Steps(src, base, opt[..], n)
    {
      var pos := cur + ml;
      var cost := MatchPrice(opt[..], cur, ml);
      if pos > last + TRAILING || cost.1 <= opt[pos].price - (if favorDecSpeed then 1 else 0) {
        if ml == matchML && last < pos {
          last := pos;
        }
        ghost var was := opt[..];
        opt[pos] := Opt(cost.1, offset, ml, cost.0);
        LivePieces(src, Found(base + cur, matchML, offset), ml);
        OneMore(src, base, was, opt[..], n, pos);
        n := if pos == n + 1 then pos else n;
      }
    }
    StepsFewer(src, base, opt[..], n, last);
  }

  lemma {:induction false} StepsFewer(src: seq<byte>, base: nat, opt: seq<Opt>, n: nat, m: nat)
    requires Steps(src, base, opt, n) && m <= n
    ensures Steps(src, base, opt, m)
  {
    hide Reached;
  }

  // ----- searching -----

  /** LZ4HC_FindLongerMatch: a match at `ip` longer than `minLen`, or length 0. */
  method FindLonger(src: seq<byte>, ctx: Context, ip: nat, minLen: nat, nbSearches: nat, favorDecSpeed: bool) returns (found: bool, m: Found)
    requires ctx.Valid() && ctx.nextToUpdate <= ip + PREFIX && ip + MFLIMIT <= |src| <= MAX_INPUT_SIZE
    requires 1 <= minLen && ip + minLen + LASTLITERALS <= |src|
    modifies ctx, ctx.hashTable, ctx.chainTable
    ensures ctx.Valid() && ctx.nextToUpdate == ip + PREFIX
    ensures found ==> Live(src, m) && m.start == ip
  {
    var md := ctx.InsertAndGetWiderMatch(src, ip, ip, |src| - LASTLITERALS, minLen, nbSearches, true, true, favorDecSpeed);
    found := md.len > minLen;
    m := Found(ip, if favorDecSpeed && 18 < md.len <= 36 then 18 else md.len, md.off);
  }

  // ----- the search for the cheapest way -----

  /** What the search over the positions behind the first match ends with: the last step and the last position. */
  datatype Choice = Choice(cur: nat, last: nat, mlen: nat, off: nat)

  /** The chosen step begins where every position up to there is reached, and passes the last position. */
  ghost predicate Chosen(src: seq<byte>, base: nat, opt: seq<Opt>, c: Choice) {
    && c.cur < c.last <= c.cur + c.mlen && base + c.cur + c.mlen + LASTLITERALS <= |src|
    && Steps(src, base, opt, c.cur) && StepFrom(src, base, c.cur, c.mlen, c.off)
  }

  /** Whether the next position is no dearer, so that a search here is not worth it. */
  predicate NotWorthIt(opt: seq<Opt>, cur: nat, fullUpdate: bool)
    requires cur + MINMATCH < |opt|
  {
    && opt[cur + 1].price <= opt[cur].price
    && (fullUpdate ==> opt[cur + MINMATCH].price < opt[cur].price + 3)
  }

  /** The step into the last position. */
  method LastStep(ghost src: seq<byte>, ghost base: nat, opt: array<Opt>, last: nat) returns (c: Choice)
    requires 1 <= last && base + last + LASTLITERALS <= |src| && Steps(src, base, opt[..], last)
    ensures Chosen(src, base, opt[..], c) && c.last == last
  {
    hide StepFrom;
    assert Reached(src, base, opt[last], last);
    c := Choice(last - opt[last].mlen, last, opt[last].mlen, opt[last].off);
  }

  /** The positions behind a first match, each with the matches that begin there. */
  method Choose(src: seq<byte>, ctx: Context, opt: array<Opt>, ip: nat, firstLen: nat, nbSearches: nat, sufficientLen: nat, fullUpdate: bool,
                favorDecSpeed: bool)
    returns (c: Choice)
    requires ctx.Valid() && ctx.nextToUpdate <= ip + PREFIX && |src| <= MAX_INPUT_SIZE
    requires opt.Length == OPT_NUM + TRAILING && MINMATCH <= firstLen < OPT_NUM && ip + firstLen + LASTLITERALS <= |src|
    requires Steps(src, ip, opt[..], firstLen + TRAILING)
    modifies opt, ctx, ctx.hashTable, ctx.chainTable
    ensures ctx.Valid() && ctx.nextToUpdate <= ip + c.cur + c.mlen + PREFIX
    ensures Chosen(src, ip, opt[..], c)
    ensures c.last < OPT_NUM
  {
    hide Live, Steps, StepFrom;
    var last, cur := firstLen, 1;
    while cur < last && ip + cur + MFLIMIT <= |src|
      invariant 1 <= cur <= last < OPT_NUM && ip + last + LASTLITERALS <= |src|
      invariant ctx.Valid() && ctx.nextToUpdate <= ip + cur + PREFIX
      invariant Steps(src, ip, opt[..], last + TRAILING)
      decreases OPT_NUM - cur
    {
      if NotWorthIt(opt[..], cur, fullUpdate) {
        cur := cur + 1;
        continue;
      }
      var found, m := FindLonger(src, ctx, ip + cur, if fullUpdate then MINMATCH - 1 else last - cur, nbSearches, favorDecSpeed);
      if found {
        LiveFacts(src, m);
        if m.len > sufficientLen || m.len + cur >= OPT_NUM {
          StepsFewer(src, ip, opt[..], last + TRAILING, cur);
          LongStep(src, ip, cur, m);
          return Choice(cur, cur + 1, m.len, m.off);
        }
        LiteralsBefore(src, ip, opt, cur, last + TRAILING);
        last := MatchEnds(src, ip, opt, cur, last, m.len, m.off, favorDecSpeed);
        TrailingLiterals(src, ip, opt, last);
      }
      cur := cur + 1;
    }
    StepsFewer(src, ip, opt[..], last + TRAILING, last);
    c := LastStep(src, ip, opt, last);
  }

  lemma {:induction false} LongStep(src: seq<byte>, base: nat, cur: nat, m: Found)
    requires Live(src, m) && m.start == base + cur
    ensures StepFrom(src, base, cur, m.len, m.off)
  {
  }

  // ----- emitting the chain -----

  lemma {:induction false} TilesForward(src: seq<byte>, base: nat, opt: seq<Opt>, pos: nat, last: nat, end: nat)
    requires Tiles(src, base, opt, pos, last, end)
    ensures pos <= end
    decreases last - pos
  {
    hide StepFrom;
    if pos < last {
      TilesForward(src, base, opt, pos + opt[pos].mlen, last, end);
    }
  }

  /** The first step of a chain and where it leads. */
  lemma {:induction false} TilesStep(src: seq<byte>, base: nat, opt: seq<Opt>, pos: nat, last: nat, end: nat)
    requires Tiles(src, base, opt, pos, last, end) && pos < last
    ensures pos < |opt| && pos < pos + opt[pos].mlen <= end && Tiles(src, base, opt, pos + opt[pos].mlen, last, end)
    ensures opt[pos].mlen != 1 ==> Live(src, Found(base + pos, opt[pos].mlen, opt[pos].off))
  {
    hide Live;
    TilesForward(src, base, opt, pos + opt[pos].mlen, last, end);
  }

  /** The recorded sequences in order. Afterwards exactly the chosen stretch has been passed. */
  method EncodeChain(src: seq<byte>, dst: array<byte>, op0: nat, anchor0: nat, base: nat, opt: array<Opt>, last: nat, ghost end: nat,
                     limited: bool, room: nat, ghost cap: nat)
    returns (ok: bool, ip: nat, op: nat, anchor: nat)
    requires opt as object != dst && Tiles(src, base, opt[..], 0, last, end) && base + end + LASTLITERALS <= |src|
    requires anchor0 <= base && |src| <= cap && room <= dst.Length
    requires Fits(limited, op0, anchor0, |src|, room) && Achieved(dst[..op0], src[..anchor0], cap)
    modifies dst
    ensures !ok ==> limited
    ensures ok ==> anchor0 <= anchor <= ip == base + end
    ensures ok ==> Fits(limited, op, anchor, |src|, room) && Achieved(dst[..op], src[..anchor], cap)
    ensures SameFrom(dst[..], old(dst[..]), room)
  {
    hide Live, Achieved, Tiles, Budget;
    ok, ip, op, anchor := true, base, op0, anchor0;
    var rPos := 0;
    ghost var chain := opt[..];
    while rPos < last
      invariant opt[..] == chain && ip == base + rPos && rPos <= end && Tiles(src, base, chain, rPos, last, end)
      invariant anchor0 <= anchor <= ip && Fits(limited, op, anchor, |src|, room) && Achieved(dst[..op], src[..anchor], cap)
      invariant SameFrom(dst[..], old(dst[..]), room)
      decreases last - rPos
    {
      TilesStep(src, base, chain, rPos, last, end);
      var ml, offset := opt[rPos].mlen, opt[rPos].off;
      if ml == 1 {
        ip, rPos := ip + 1, rPos + 1;
        continue;
      }
      rPos := rPos + ml;
      ok, op := EncodeSequence(src, dst, op, anchor, Found(ip, ml, offset), limited, room, cap);
      if !ok {
        return;
      }
      ip := ip + ml;
      anchor := ip;
    }
    TilesDone(src, base, chain, rPos, last, end);
  }

  lemma {:induction false} TilesDone(src: seq<byte>, base: nat, opt: seq<Opt>, pos: nat, last: nat, end: nat)
    requires Tiles(src, base, opt, pos, last, end) && last <= pos
    ensures pos == end
  {
  }

  /** One stretch of the main loop: from a first match to the end of the chain it leads to. */
  method EncodeStretch(src: seq<byte>, ctx: Context, opt: array<Opt>, dst: array<byte>, op0: nat, anchor0: nat, first: Found, nbSearches: nat,
                       sufficientLen: nat, fullUpdate: bool, favorDecSpeed: bool, limited: bool, room: nat, ghost cap: nat)
    returns (ok: bool, ip: nat, op: nat, anchor: nat)
    requires ctx.Valid() && ctx.nextToUpdate <= first.start + PREFIX && Live(src, first) && first.len <= sufficientLen < OPT_NUM
    requires opt.Length == OPT_NUM + TRAILING && opt as object != dst && anchor0 <= first.start
    requires |src| <= cap && |src| <= MAX_INPUT_SIZE && room <= dst.Length
    requires Fits(limited, op0, anchor0, |src|, room) && Achieved(dst[..op0], src[..anchor0], cap)
    modifies opt, dst, ctx, ctx.hashTable, ctx.chainTable
    ensures !ok ==> limited
    ensures ok ==> ctx.Valid() && ctx.nextToUpdate <= ip + PREFIX && first.start < ip && anchor <= ip && ip + LASTLITERALS <= |src|
    ensures ok ==> Fits(limited, op, anchor, |src|, room) && Achieved(dst[..op], src[..anchor], cap)
    ensures SameFrom(dst[..], old(dst[..]), room)
  {
    hide Live, Achieved, Tiles, Steps, StepFrom, Budget;
    ip := first.start;
    LiveFacts(src, first);
    FirstPrices(src, ip, opt, ip - anchor0, first.len, first.off);
    var c := Choose(src, ctx, opt, ip, first.len, nbSearches, sufficientLen, fullUpdate, favorDecSpeed);
    Traverse(src, ip, opt, c.cur, c.mlen, c.off, c.last);
    ok, ip, op, anchor := EncodeChain(src, dst, op0, anchor0, ip, opt, c.last, c.cur + c.mlen, limited, room, cap);
  }

  /** LZ4HC_compress_optimal. */
  method CompressOptimal(src: seq<byte>, dst: array<byte>, nbSearches: nat, targetLength: nat, limited: bool, fullUpdate: bool,
                         favorDecSpeed: bool, room: nat, ghost cap: nat)
    returns (r: nat)
    requires |src| <= cap && |src| <= MAX_INPUT_SIZE && room <= dst.Length && (!limited ==> Budget(|src|) + 16 <= room)
    modifies dst
    ensures r <= room && (r == 0 ==> limited)
    ensures r > 0 ==> Expand(dst[..r], []) == Some(src) && Strict(dst[..r], 0, cap)
    ensures SameFrom(dst[..], old(dst[..]), room)
  {
    hide Achieved, Expand, Strict, Live;
    var sufficientLen := if targetLength >= OPT_NUM then OPT_NUM - 1 else targetLength;
    var ip: nat, op: nat, anchor: nat := 0, 0, 0;
    NothingAchieved(cap);
    assert dst[..0] == [] && src[..0] == [];
    var ctx := new Context();
    var opt := new Opt[OPT_NUM + TRAILING](_ => Opt(0, 0, 0, 0));
    while ip + MFLIMIT <= |src|
      invariant anchor <= ip <= |src| && ctx.Valid() && ctx.nextToUpdate <= ip + PREFIX && fresh(ctx) && fresh(ctx.hashTable) && fresh(ctx.chainTable)
      invariant op > 0 ==> anchor + LASTLITERALS <= |src|
      invariant Fits(limited, op, anchor, |src|, room) && Achieved(dst[..op], src[..anchor], cap)
      invariant SameFrom(dst[..], old(dst[..]), room)
      decreases |src| - ip
    {
      var found, first := FindLonger(src, ctx, ip, MINMATCH - 1, nbSearches, favorDecSpeed);
      if !found {
        ip := ip + 1;
        continue;
      }
      LiveFacts(src, first);
      var ok;
      if first.len > sufficientLen {
        ok, op := EncodeSequence(src, dst, op, anchor, first, limited, room, cap);
        ip := first.End();
        anchor := ip;
      } else {
        ok, ip, op, anchor := EncodeStretch(src, ctx, opt, dst, op, anchor, first, nbSearches, sufficientLen, fullUpdate, favorDecSpeed,
                                            limited, room, cap);
      }
      if !ok {
        return 0;
      }
    }
    r := EncodeLastLiterals(src, dst, op, anchor, limited, room, cap);
  }
}
