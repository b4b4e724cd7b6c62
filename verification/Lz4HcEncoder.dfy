// LZ4HC_compress_hashChain: lazy parsing that weighs up to three overlapping matches. Whatever is
// trimmed or swapped, each emitted match is real, at least four bytes long and behind the anchor.

module Lz4HcEncoder {
  import opened Bytes
  import opened Stores
  import opened Lz4Format
  import opened Lz4Encoder
  import opened Lz4HcSearch

  const OPTIMAL_ML := (15 - 1) + MINMATCH

  /** A match with its own start (the source keeps starts and LZ4HC_match_t apart). */
  datatype Found = Found(start: nat, len: nat, off: nat) {
    function End(): nat {
      start + len
    }
  }

  /** A match that may be emitted: real, long enough, away from the end of the input. */
  ghost predicate Live(src: seq<byte>, m: Found) {
    && m.len >= MINMATCH && m.start + MFLIMIT <= |src| && m.End() + LASTLITERALS <= |src|
    && Genuine(src, m.start, m.End(), m.off)
  }

  /** Part of a live match that is still long enough is a live match. */
  lemma {:induction false} LivePart(src: seq<byte>, m: Found, part: Found)
    requires Live(src, m) && part.off == m.off && m.start <= part.start && part.End() <= m.End()
    requires part.len >= MINMATCH && part.start + MFLIMIT <= |src|
    ensures Live(src, part)
  {
  }

  // ----- emitting one sequence -----

  /** The bytes of a sequence with `n` literals and a match of `len` bytes. */
  function SequenceCost(n: nat, len: nat): nat
    requires len >= MINMATCH
  {
    3 + n + LengthSize(n) + LengthSize(len - MINMATCH)
  }

  /** LZ4HC_encodeSequence. */
  method EncodeSequence(src: seq<byte>, dst: array<byte>, op0: nat, anchor: nat, m: Found, limited: bool, room: nat, ghost cap: nat)
    returns (ok: bool, op: nat)
    requires Live(src, m) && anchor <= m.start && |src| <= cap && room <= dst.Length
    requires Fits(limited, op0, anchor, |src|, room) && Achieved(dst[..op0], src[..anchor], cap)
    modifies dst
    ensures !ok ==> limited && op0 + 6 + SequenceCost(m.start - anchor, m.len) > room
    ensures ok ==> op == op0 + SequenceCost(m.start - anchor, m.len)
    ensures ok ==> Fits(limited, op, m.End(), |src|, room) && Achieved(dst[..op], src[..m.End()], cap)
    ensures SameFrom(dst[..], old(dst[..]), room)
  {
    hide Achieved, LastBytes, SequenceBytes, Wrote, LengthBytes, LengthSize;
    LengthSizes(m.start - anchor);
    ghost var was, done := dst[..], dst[..op0];
    ok, op := EncodeLiterals(src, dst, op0, anchor, m.start, limited, room);
    if !ok {
      return;
    }
    ghost var lits := src[anchor..m.start];
    WrotePosition(dst[..], op, was, op0, LastBytes(lits), room);
    LastSize(lits);
    LengthSizes(m.len - MINMATCH);
    if limited && op + 2 + (m.len - MINMATCH) / 255 + (1 + LASTLITERALS) > room {
      return false, op;
    }
    SequenceSize(lits, m.off, m.len);
    BudgetHolds(anchor, |lits|, m.len);
    BudgetGrows(m.End(), |src|);
    SequenceRoom(limited, op, op0, |lits|, m.len, |src|, room, anchor);
    op := EncodeOffsetAndLength(dst, op, op0, done, lits, m.off, m.len, false, room);
    SequenceMade(src, done, anchor, m.start, m.End(), m.off, cap);
  }

  lemma {:induction false} LengthSizes(n: nat)
    ensures n / 255 <= LengthSize(n)
  {
    hide LengthBytes;
  }

  lemma {:induction false} SequenceRoom(limited: bool, op: nat, token: nat, n: nat, len: nat, size: nat, room: nat, anchor: nat)
    requires op == token + 1 + LengthSize(n) + n && len >= MINMATCH
    requires limited ==> op + 2 + (len - MINMATCH) / 255 + (1 + LASTLITERALS) <= room
    requires !limited ==> token <= Budget(anchor) && Budget(size) + 16 <= room
    requires Budget(anchor) + 3 + n + LengthSize(n) + LengthSize(len - MINMATCH) <= Budget(size)
    ensures op + 2 + (len - MINMATCH) / 255 + 4 <= room
  {
    hide LengthBytes, Budget;
  }

  // ----- searching -----

  /** Every match at `ip` at the distance `off` is found, or one that is longer. */
  ghost predicate NotMissed(src: seq<byte>, ip: nat, off: nat, found: bool, m: Found) {
    forall e: nat :: ip + 4 <= e && e + 5 <= |src| && Genuine(src, ip, e, off) ==> found && e <= m.End()
  }

  /** LZ4HC_InsertAndFindBestMatch: a match that starts at `ip`, if it is long enough. */
  method FindBest(src: seq<byte>, ctx: Context, ip: nat, maxNbAttempts: nat) returns (found: bool, m: Found)
    requires ctx.Valid() && ctx.nextToUpdate <= ip + PREFIX && ip + MFLIMIT <= |src| <= MAX_INPUT_SIZE
    modifies ctx, ctx.hashTable, ctx.chainTable
    ensures ctx.Valid() && ctx.nextToUpdate == ip + PREFIX
    ensures found ==> Live(src, m) && m.start == ip
    ensures forall p: nat :: old(ctx.nextToUpdate) <= p + PREFIX < ip + PREFIX ==> p + PREFIX <= ctx.hashTable[HashPtr(src, p)]
    ensures LowestIndex(ip + PREFIX) <= ctx.hashTable[HashPtr(src, ip)] && maxNbAttempts > 0 ==>
      NotMissed(src, ip, ip + PREFIX - ctx.hashTable[HashPtr(src, ip)], found, m)
  {
    hide Genuine, HashPtr;
    var b := ctx.InsertAndGetWiderMatch(src, ip, ip, |src| - LASTLITERALS, MINMATCH - 1, maxNbAttempts, maxNbAttempts > 128, false, false);
    found := b.len >= MINMATCH;
    m := Found(ip, b.len, b.off);
  }

  /** The search for a match longer than `m` that starts within it and reaches beyond it: from `overlap`
      bytes before its end, unless the end of the input is too near. */
  method FindWider(src: seq<byte>, ctx: Context, m: Found, overlap: nat, maxNbAttempts: nat) returns (found: bool, w: Found)
    requires ctx.Valid() && 2 <= overlap <= 3 && Live(src, m) && ctx.nextToUpdate + overlap <= m.End() + PREFIX && |src| <= MAX_INPUT_SIZE
    modifies ctx, ctx.hashTable, ctx.chainTable
    ensures ctx.Valid() && ctx.nextToUpdate + overlap <= m.End() + PREFIX
    ensures found ==> m.End() + MFLIMIT <= |src|
    ensures found ==> Live(src, w) && w.len > m.len && m.start <= w.start <= m.End() - overlap && m.End() - overlap + MINMATCH <= w.End()
  {
    found, w := false, m;
    if m.End() + MFLIMIT <= |src| {
      var p := m.End() - overlap;
      var b := ctx.InsertAndGetWiderMatch(src, p, m.start, |src| - LASTLITERALS, m.len, maxNbAttempts, maxNbAttempts > 128, false, false);
      found := b.len > m.len;
      if found {
        w := Found(p - b.back, b.len, b.off);
      }
    }
  }

  // ----- the lazy parser -----

  /** The labels of the source with the matches they weigh. */
  datatype Phase =
    | Search2(m1: Found, m0: Found)
    | Search3(m1: Found, m2: Found)
    | Settled
    | Overflow

  /** At _Search2: `m0` is the match first found, `m1` what it was replaced by, at most two bytes later. */
  ghost predicate AtSearch2(src: seq<byte>, anchor: nat, m1: Found, m0: Found) {
    && Live(src, m1) && Live(src, m0)
    && anchor <= m0.start <= m1.start <= m0.start + 2
    && (m0 == m1 || (m1.len > MINMATCH && m0.End() + MFLIMIT <= |src|))
  }

  /** At _Search3: `m2` starts no earlier than `m1` and ends at least eight bytes after its start. It may
      start behind the end of `m1` by one byte, and then it is long. */
  ghost predicate AtSearch3(src: seq<byte>, anchor: nat, m1: Found, m2: Found) {
    && Live(src, m1) && Live(src, m2)
    && anchor <= m1.start <= m2.start && m1.start + 2 * MINMATCH <= m2.End()
    && m1.End() + MFLIMIT <= |src|
    && m2.start <= m1.End() + 1 && (m2.start > m1.End() ==> m2.len >= 6)
  }

  ghost predicate Standing(src: seq<byte>, anchor: nat, p: Phase) {
    match p
    case Search2(m1, m0) => AtSearch2(src, anchor, m1, m0)
    case Search3(m1, m2) => AtSearch3(src, anchor, m1, m2)
    case Settled => true
    case Overflow => true
  }

  /** The position of the next search; it only moves forward, so the tables never hold later positions. */
  function NextSearch(p: Phase, anchor: nat): int {
    match p
    case Search2(m1, m0) => m1.End() - 2
    case Search3(m1, m2) => m2.End() - 3
    case Settled => anchor
    case Overflow => anchor
  }

  /** The part of `m2` left after `m1` has taken what it can use of it. */
  function Corrected(m1: Found, m2: Found): (m: Found)
    requires m1.start <= m2.start && m1.start + 2 * MINMATCH <= m2.End() && m1.len >= MINMATCH && m2.len >= MINMATCH
    ensures m.off == m2.off && m.len >= MINMATCH && m.End() == m2.End()
    ensures m.start >= m1.start + MINMATCH && (m == m2 || m2.start <= m.start <= m1.End())
  {
    if m2.start - m1.start < OPTIMAL_ML then
      var most := if m1.len > OPTIMAL_ML then OPTIMAL_ML else m1.len;
      var newMl := if m1.start + most > m2.End() - MINMATCH then m2.End() - MINMATCH - m1.start else most;
      var correction := newMl - (m2.start - m1.start);
      if correction > 0 then Found(m2.start + correction, m2.len - correction, m2.off) else m2
    else m2
  }

  /** `m1` cut before a third match is kept, when `m2` overlaps it. */
  function Shortened(m1: Found, m2: Found): (m: Found)
    requires m1.start + MINMATCH <= m2.start && m1.start + 2 * MINMATCH <= m2.End() && m1.len >= MINMATCH
    ensures m.start == m1.start && m.off == m1.off && MINMATCH <= m.len <= m1.len
  {
    if m2.start < m1.End() then
      if m2.start - m1.start < OPTIMAL_ML then
        var most := if m1.len > OPTIMAL_ML then OPTIMAL_ML else m1.len;
        Found(m1.start, if m1.start + most > m2.End() - MINMATCH then m2.End() - MINMATCH - m1.start else most, m1.off)
      else Found(m1.start, m2.start - m1.start, m1.off)
    else m1
  }

  /** `m2` moved behind a shortened `m1` that still reaches into it. */
  function PushedBack(m1: Found, m2: Found, short: Found): (m: Found)
    requires m2.len >= MINMATCH && m1.start <= m2.start && short.start == m1.start
    requires m2.start < m1.End() && m2.start - m1.start < OPTIMAL_ML ==> short.End() + MINMATCH <= m2.End()
    ensures m.off == m2.off && m.len >= MINMATCH && m.End() == m2.End() && m2.start <= m.start
  {
    var correction := short.len as int - (m2.start - m1.start);
    if m2.start < m1.End() && m2.start - m1.start < OPTIMAL_ML && correction > 0
    then Found(m2.start + correction, m2.len - correction, m2.off) else m2
  }

  /** What is known of three matches once the third has been found behind the corrected second. */
  ghost predicate Ascending(src: seq<byte>, anchor: nat, m1: Found, m2: Found, m3: Found) {
    && Live(src, m1) && Live(src, m2) && Live(src, m3)
    && anchor <= m1.start && m1.start + MINMATCH <= m2.start <= m3.start && m3.len > m2.len
    && m1.End() + MFLIMIT <= |src| && m2.End() + MFLIMIT <= |src|
    && m2.start <= m1.End() + 1 && (m2.start > m1.End() ==> m2.len >= 6)
    && m3.start + 3 <= m2.End() < m3.End()
  }

  lemma {:induction false} CorrectedStands(src: seq<byte>, anchor: nat, m1: Found, m2: Found)
    requires AtSearch3(src, anchor, m1, m2)
    ensures var c := Corrected(m1, m2); AtSearch3(src, anchor, m1, c) && m1.start + MINMATCH <= c.start
  {
    hide Genuine, Live;
    LiveFacts(src, m1);
    LiveFacts(src, m2);
    LivePart(src, m2, Corrected(m1, m2));
  }

  lemma {:induction false} LiveFacts(src: seq<byte>, m: Found)
    requires Live(src, m)
    ensures m.len >= MINMATCH && m.start + MFLIMIT <= |src| && m.End() + LASTLITERALS <= |src| && 1 <= m.off <= m.start
  {
  }

  /** Match 2 gives way: match 1 is written, match 3 takes its place and what is left of match 2 is kept aside. */
  function KeptAside(m1: Found, m2: Found, m3: Found): Found
    requires m1.start <= m2.start
  {
    if m2.start < m1.End() then
      if m2.len < (m1.End() - m2.start) + MINMATCH then m3
      else Found(m1.End(), m2.len - (m1.End() - m2.start), m2.off)
    else m2
  }

  lemma {:induction false} KeptAsideStands(src: seq<byte>, anchor: nat, m1: Found, m2: Found, m3: Found)
    requires Ascending(src, anchor, m1, m2, m3) && m1.End() <= m3.start < m1.End() + 3
    ensures AtSearch2(src, m1.End(), m3, KeptAside(m1, m2, m3))
  {
    hide Genuine, Live;
    LiveFacts(src, m1);
    LiveFacts(src, m2);
    LiveFacts(src, m3);
    var m0 := KeptAside(m1, m2, m3);
    if m0 != m3 {
      LivePart(src, m2, m0);
    }
  }

  /** Match 2 is dropped for match 3. */
  lemma {:induction false} DroppedStands(src: seq<byte>, anchor: nat, m1: Found, m2: Found, m3: Found)
    requires Ascending(src, anchor, m1, m2, m3) && m3.start < m1.End()
    ensures AtSearch3(src, anchor, m1, m3)
  {
    hide Genuine, Live;
    LiveFacts(src, m2);
  }

  /** Three ascending matches: a shortened first one is written, the others move up. */
  lemma {:induction false} MovedUpStands(src: seq<byte>, anchor: nat, m1: Found, m2: Found, m3: Found)
    requires Ascending(src, anchor, m1, m2, m3) && m1.End() + 3 <= m3.start
    ensures m1.len >= MINMATCH && m2.len >= MINMATCH
    ensures var short := Shortened(m1, m2);
      Live(src, short) && AtSearch3(src, short.End(), PushedBack(m1, m2, short), m3)
  {
    hide Genuine, Live;
    LiveFacts(src, m1);
    LiveFacts(src, m2);
    LiveFacts(src, m3);
    var short := Shortened(m1, m2);
    LivePart(src, m1, short);
    LivePart(src, m2, PushedBack(m1, m2, short));
  }

  /** _Search2: look for a longer match across the end of match 1. */
  method Step2(src: seq<byte>, ctx: Context, dst: array<byte>, op0: nat, anchor0: nat, m1: Found, m0: Found, maxNbAttempts: nat,
               limited: bool, room: nat, ghost cap: nat)
    returns (phase: Phase, op: nat, anchor: nat)
    requires ctx.Valid() && ctx.nextToUpdate <= NextSearch(Search2(m1, m0), anchor0) + PREFIX
    requires AtSearch2(src, anchor0, m1, m0) && |src| <= cap && |src| <= MAX_INPUT_SIZE && room <= dst.Length
    requires Fits(limited, op0, anchor0, |src|, room) && Achieved(dst[..op0], src[..anchor0], cap)
    modifies ctx, ctx.hashTable, ctx.chainTable, dst
    ensures !phase.Overflow? ==> ctx.Valid() && ctx.nextToUpdate <= NextSearch(phase, anchor) + PREFIX
    ensures phase.Overflow? ==> limited
    ensures !phase.Overflow? ==> Standing(src, anchor, phase) && anchor0 <= anchor && anchor + LASTLITERALS <= |src|
    ensures !phase.Overflow? ==> Fits(limited, op, anchor, |src|, room) && Achieved(dst[..op], src[..anchor], cap)
    ensures phase.Search2? || phase.Search3? ==> NextSearch(phase, anchor) > m1.End() - 2
    ensures phase.Settled? ==> anchor == m1.End() && op == op0 + SequenceCost(m1.start - anchor0, m1.len)
    ensures m1.End() + MFLIMIT > |src| ==>
      phase.Settled? || (phase.Overflow? && op0 + 6 + SequenceCost(m1.start - anchor0, m1.len) > room)
    ensures SameFrom(dst[..], old(dst[..]), room)
  {
    hide Genuine, Live, Achieved, Fits, SequenceCost;
    op, anchor := op0, anchor0;
    LiveFacts(src, m1);
    LiveFacts(src, m0);
    var found, m2 := FindWider(src, ctx, m1, 2, maxNbAttempts);
    if !found {
      var ok;
      ok, op := EncodeSequence(src, dst, op, anchor, m1, limited, room, cap);
      return if ok then Settled else Overflow, op, m1.End();
    }
    var first := if m0.start < m1.start && m2.start < m1.start + m0.len then m0 else m1;
    phase := if m2.start - first.start < 3 then Search2(m2, m0) else Search3(first, m2);
  }

  /** _Search3: look for a third match, then settle as much as is certain. */
  method Step3(src: seq<byte>, ctx: Context, dst: array<byte>, op0: nat, anchor0: nat, m1: Found, overlapping: Found, maxNbAttempts: nat,
               limited: bool, room: nat, ghost cap: nat)
    returns (phase: Phase, op: nat, anchor: nat)
    requires ctx.Valid() && ctx.nextToUpdate <= NextSearch(Search3(m1, overlapping), anchor0) + PREFIX
    requires AtSearch3(src, anchor0, m1, overlapping) && |src| <= cap && |src| <= MAX_INPUT_SIZE && room <= dst.Length
    requires Fits(limited, op0, anchor0, |src|, room) && Achieved(dst[..op0], src[..anchor0], cap)
    modifies ctx, ctx.hashTable, ctx.chainTable, dst
    ensures !phase.Overflow? ==> ctx.Valid() && ctx.nextToUpdate <= NextSearch(phase, anchor) + PREFIX
    ensures phase.Overflow? ==> limited
    ensures !phase.Overflow? ==> Standing(src, anchor, phase) && anchor0 <= anchor && anchor + LASTLITERALS <= |src|
    ensures !phase.Overflow? ==> Fits(limited, op, anchor, |src|, room) && Achieved(dst[..op], src[..anchor], cap)
    ensures phase.Search2? || phase.Search3? ==> NextSearch(phase, anchor) > overlapping.End() - 3
    ensures phase.Settled? ==> anchor == overlapping.End()
    ensures SameFrom(dst[..], old(dst[..]), room)
  {
    hide Genuine, Live, Achieved, Fits;
    op, anchor := op0, anchor0;
    LiveFacts(src, m1);
    LiveFacts(src, overlapping);
    CorrectedStands(src, anchor, m1, overlapping);
    var m2 := Corrected(m1, overlapping);
    var found, m3 := FindWider(src, ctx, m2, 3, maxNbAttempts);
    var ok;
    if !found {
      ok, op := EncodeTwo(src, dst, op, anchor, m1, m2, limited, room, cap);
      return if ok then Settled else Overflow, op, m2.End();
    }
    assert Ascending(src, anchor, m1, m2, m3);
    if m3.start < m1.End() {
      DroppedStands(src, anchor, m1, m2, m3);
      return Search3(m1, m3), op, anchor;
    }
    if m3.start < m1.End() + 3 {
      KeptAsideStands(src, anchor, m1, m2, m3);
      ok, op := EncodeSequence(src, dst, op, anchor, m1, limited, room, cap);
      return if ok then Search2(m3, KeptAside(m1, m2, m3)) else Overflow, op, m1.End();
    }
    MovedUpStands(src, anchor, m1, m2, m3);
    var short := Shortened(m1, m2);
    ok, op := EncodeSequence(src, dst, op, anchor, short, limited, room, cap);
    return if ok then Search3(PushedBack(m1, m2, short), m3) else Overflow, op, short.End();
  }

  /** Matches 1 and 2 are written, the first cut where the second starts. */
  method EncodeTwo(src: seq<byte>, dst: array<byte>, op0: nat, anchor: nat, m1: Found, m2: Found, limited: bool, room: nat, ghost cap: nat)
    returns (ok: bool, op: nat)
    requires AtSearch3(src, anchor, m1, m2) && m1.start + MINMATCH <= m2.start && |src| <= cap && room <= dst.Length
    requires Fits(limited, op0, anchor, |src|, room) && Achieved(dst[..op0], src[..anchor], cap)
    modifies dst
    ensures !ok ==> limited
    ensures ok ==> Fits(limited, op, m2.End(), |src|, room) && Achieved(dst[..op], src[..m2.End()], cap)
    ensures SameFrom(dst[..], old(dst[..]), room)
  {
    hide Genuine, Live, Achieved, Fits;
    LiveFacts(src, m1);
    LiveFacts(src, m2);
    var first := if m2.start < m1.End() then Found(m1.start, m2.start - m1.start, m1.off) else m1;
    LivePart(src, m1, first);
    ok, op := EncodeSequence(src, dst, op0, anchor, first, limited, room, cap);
    if ok {
      ok, op := EncodeSequence(src, dst, op, first.End(), m2, limited, room, cap);
    }
  }

  /** The parser from a first match until everything it led to is settled. */
  method Settle(src: seq<byte>, ctx: Context, dst: array<byte>, op0: nat, anchor0: nat, m: Found, maxNbAttempts: nat,
                limited: bool, room: nat, ghost cap: nat)
    returns (ok: bool, op: nat, anchor: nat)
    requires ctx.Valid() && ctx.nextToUpdate <= m.start + PREFIX && Live(src, m) && anchor0 <= m.start
    requires |src| <= cap && |src| <= MAX_INPUT_SIZE && room <= dst.Length
    requires Fits(limited, op0, anchor0, |src|, room) && Achieved(dst[..op0], src[..anchor0], cap)
    modifies ctx, ctx.hashTable, ctx.chainTable, dst
    ensures !ok ==> limited
    ensures ok ==> ctx.Valid() && ctx.nextToUpdate <= anchor + PREFIX && m.End() <= anchor && anchor + LASTLITERALS <= |src|
    ensures ok ==> Fits(limited, op, anchor, |src|, room) && Achieved(dst[..op], src[..anchor], cap)
    ensures m.len >= MINMATCH && m.End() + MFLIMIT > |src| ==>
      if ok then anchor == m.End() && op == op0 + SequenceCost(m.start - anchor0, m.len) else op0 + 6 + SequenceCost(m.start - anchor0, m.len) > room
    ensures SameFrom(dst[..], old(dst[..]), room)
  {
    hide Genuine, Live, Achieved, AtSearch2, AtSearch3, SequenceCost;
    op, anchor := op0, anchor0;
    var phase := Search2(m, m);
    FirstStands(src, anchor, m);
    while phase.Search2? || phase.Search3?
      invariant phase.Overflow? ==> limited
      invariant !phase.Overflow? ==> ctx.Valid() && ctx.nextToUpdate <= NextSearch(phase, anchor) + PREFIX
      invariant !phase.Overflow? ==> Standing(src, anchor, phase) && anchor + LASTLITERALS <= |src|
      invariant !phase.Overflow? ==> Fits(limited, op, anchor, |src|, room) && Achieved(dst[..op], src[..anchor], cap)
      invariant phase.Search2? || phase.Search3? ==> m.End() - 2 <= NextSearch(phase, anchor)
      invariant phase.Settled? ==> m.End() <= anchor
      invariant m.End() + MFLIMIT > |src| ==>
        match phase
        case Search2(_, _) => phase == Search2(m, m) && op == op0 && anchor == anchor0
        case Search3(_, _) => false
        case Settled => anchor == m.End() && op == op0 + SequenceCost(m.start - anchor0, m.len)
        case Overflow => op0 + 6 + SequenceCost(m.start - anchor0, m.len) > room
      invariant SameFrom(dst[..], old(dst[..]), room)
      decreases phase.Search2? || phase.Search3?, |src| - NextSearch(phase, anchor)
    {
      SearchInside(src, anchor, phase);
      match phase {
        case Search2(m1, m0) =>
          phase, op, anchor := Step2(src, ctx, dst, op, anchor, m1, m0, maxNbAttempts, limited, room, cap);
        case Search3(m1, m2) =>
          phase, op, anchor := Step3(src, ctx, dst, op, anchor, m1, m2, maxNbAttempts, limited, room, cap);
      }
    }
    ok := phase.Settled?;
  }

  lemma {:induction false} FirstStands(src: seq<byte>, anchor: nat, m: Found)
    requires Live(src, m) && anchor <= m.start
    ensures Standing(src, anchor, Search2(m, m)) && anchor + LASTLITERALS <= |src| && m.len >= MINMATCH
  {
  }

  lemma {:induction false} SearchInside(src: seq<byte>, anchor: nat, p: Phase)
    requires Standing(src, anchor, p) && (p.Search2? || p.Search3?)
    ensures NextSearch(p, anchor) < |src|
  {
  }

  /** In one byte over and over the first position has no match, and the second one up to the last literals. */
  lemma {:induction false} UniformMatch(src: seq<byte>, ip: nat, e: nat)
    requires Uniform(src) && ip <= 1 <= e <= |src|
    ensures Genuine(src, 1, e, 1)
    ensures |src| >= 5 ==> HashPtr(src, 0) == HashPtr(src, 1)
  {
    if |src| >= 5 {
      assert Le32(src[0..]) == Le32(src[1..]);
    }
  }

  lemma {:induction false} UniformFound(src: seq<byte>, ctx: Context, ip: nat, found: bool, m: Found)
    requires Uniform(src) && ctx.Valid() && ip <= 1 && ctx.nextToUpdate == ip + PREFIX && ip + MFLIMIT <= |src|
    requires found ==> Live(src, m) && m.start == ip
    requires forall p: nat :: p < ip ==> p + PREFIX <= ctx.hashTable[HashPtr(src, p)]
    requires LowestIndex(ip + PREFIX) <= ctx.hashTable[HashPtr(src, ip)] ==>
      NotMissed(src, ip, ip + PREFIX - ctx.hashTable[HashPtr(src, ip)], found, m)
    ensures ip == 0 ==> !found
    ensures ip == 1 ==> found && m.len == |src| - 6
  {
    hide HashPtr, Uniform;
    UniformMatch(src, ip, |src| - 5);
    if ip == 1 {
      assert ctx.hashTable[HashPtr(src, 0)] == PREFIX;
    }
  }

  lemma {:induction false} UniformSize(n: nat)
    requires n >= 13
    ensures SequenceCost(1, n - 6) <= 5 + n / 255
  {
    hide LengthBytes;
  }

  /** LZ4HC_compress_hashChain. */
  method CompressHashChain(src: seq<byte>, dst: array<byte>, maxNbAttempts: nat, limited: bool, room: nat, ghost cap: nat) returns (r: nat)
    requires |src| <= cap && |src| <= MAX_INPUT_SIZE && room <= dst.Length && (!limited ==> Budget(|src|) + 16 <= room)
    modifies dst
    ensures r <= room && (r == 0 ==> limited)
    ensures r > 0 ==> Expand(dst[..r], []) == Some(src) && Strict(dst[..r], 0, cap)
    ensures Uniform(src) && |src| >= 13 && maxNbAttempts > 0 && room >= 11 + |src| / 255 ==> 0 < r <= 11 + |src| / 255
    ensures SameFrom(dst[..], old(dst[..]), room)
  {
    hide Achieved, Expand, Strict, Genuine, Live, Uniform, HashPtr, SequenceCost;
    var op: nat, anchor: nat := 0, 0;
    ghost var easy := Uniform(src) && maxNbAttempts > 0 && room >= 11 + |src| / 255;
    NothingAchieved(cap);
    assert dst[..0] == [] && src[..0] == [];
    if |src| >= MIN_LENGTH {
      var ctx := new Context();
      var ip := 0;
      while ip + MFLIMIT <= |src|
        invariant anchor <= ip && ctx.Valid() && ctx.nextToUpdate <= ip + PREFIX && fresh(ctx) && fresh(ctx.hashTable) && fresh(ctx.chainTable)
        invariant anchor + LASTLITERALS <= |src| && Fits(limited, op, anchor, |src|, room) && Achieved(dst[..op], src[..anchor], cap)
        invariant easy ==>
          if ip <= 1 then op == 0 && anchor == 0 && ctx.nextToUpdate == PREFIX else anchor == |src| - 5 && op <= 5 + |src| / 255
        invariant SameFrom(dst[..], old(dst[..]), room)
        decreases |src| - ip
      {
        ghost var next := ctx.nextToUpdate;
        var found, m := FindBest(src, ctx, ip, maxNbAttempts);
        assert forall p: nat :: next <= p + PREFIX < ip + PREFIX ==> p + PREFIX <= ctx.hashTable[HashPtr(src, p)];
        if easy && ip <= 1 {
          UniformFound(src, ctx, ip, found, m);
        }
        if !found {
          ip := ip + 1;
          continue;
        }
        LiveFacts(src, m);
        UniformSize(|src|);
        var ok;
        ok, op, anchor := Settle(src, ctx, dst, op, anchor, m, maxNbAttempts, limited, room, cap);
        if !ok {
          return 0;
        }
        ip := anchor;
      }
    }
    r := EncodeLastLiterals(src, dst, op, anchor, limited, room, cap);
  }
}
