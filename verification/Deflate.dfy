// zlib's deflate.c: the sliding window, the search for matches and the fast and lazy parsers. Block writing
// (trees.c) is not part of this model: the tokens tallied for it are kept in a log.

module DeflateTokens {
  import opened LzCopies

  datatype Token = Literal(b: bv8) | Match(dist: nat, len: nat)

  datatype Option<T> = None | Some(value: T)

  /** What a decoder makes of one token; lengths and distances are those of section 3.2.5 of RFC 1951. */
  function Apply(out: seq<bv8>, t: Token): Option<seq<bv8>> {
    match t
    case Literal(b) => Some(out + [b])
    case Match(dist, len) => if 3 <= len <= 258 && 1 <= dist <= 32768 && dist <= |out| then Some(LzCopy(out, dist, len)) else None
  }

  /** What a decoder makes of the log. */
  function Expand(ts: seq<Token>): Option<seq<bv8>> {
    if ts == [] then Some([])
    else
      match Expand(ts[..|ts| - 1])
      case None => None
      case Some(out) => Apply(out, ts[|ts| - 1])
  }

  lemma {:induction false} ExpandOne(ts: seq<Token>, t: Token)
    ensures Expand(ts + [t]) == if Expand(ts).None? then None else Apply(Expand(ts).value, t)
  {
    assert (ts + [t])[..|ts|] == ts;
  }

  /** The `len` bytes at `pos` repeat the bytes `dist` before them, and a token may say so. */
  ghost predicate Genuine(s: seq<bv8>, pos: nat, dist: int, len: nat) {
    && 3 <= len <= 258 && 1 <= dist <= 32768 && dist <= pos && pos + len <= |s|
    && forall i :: pos <= i < pos + len ==> s[i] == s[i - dist]
  }

  lemma {:induction false} ExpandLiteral(ts: seq<Token>, s: seq<bv8>, pos: nat)
    requires pos < |s| && Expand(ts) == Some(s[..pos])
    ensures Expand(ts + [Literal(s[pos])]) == Some(s[..pos + 1])
  {
    ExpandOne(ts, Literal(s[pos]));
    assert s[..pos] + [s[pos]] == s[..pos + 1];
  }

  lemma {:induction false} ExpandMatch(ts: seq<Token>, s: seq<bv8>, pos: nat, dist: int, len: nat)
    requires Genuine(s, pos, dist, len) && Expand(ts) == Some(s[..pos])
    ensures Expand(ts + [Match(dist, len)]) == Some(s[..pos + len])
  {
    hide Expand;
    ExpandOne(ts, Match(dist, len));
    GenuineMatch(s, pos, dist, len);
  }

  lemma {:induction false} GenuineLonger(s: seq<bv8>, t: seq<bv8>, pos: nat, dist: int, len: nat)
    requires Genuine(s, pos, dist, len) && s <= t
    ensures Genuine(t, pos, dist, len)
  {
  }
}

module Deflate {
  import opened DeflateHash
  import opened DeflateChains
  import opened DeflateTokens

  const MIN_MATCH := 3
  const MAX_MATCH := 258
  const MIN_LOOKAHEAD := MAX_MATCH + MIN_MATCH + 1
  const TOO_FAR := 4096

  datatype Flush = NoFlush | PartialFlush | SyncFlush | FullFlush | Finish | Block

  datatype Status = NeedMore | BlockDone | FinishStarted | FinishDone

  /** The parser has come to the end of the stream: FINISH_STATE. */
  predicate Ends(s: Status) {
    s == FinishStarted || s == FinishDone
  }

  /** A row of configuration_table. */
  datatype Config = Config(good: nat, lazy: nat, nice: nat, chain: nat) {
    predicate Ok() {
      MIN_MATCH <= lazy <= MAX_MATCH && nice <= MAX_MATCH && chain >= 4 && good >= MIN_MATCH
    }
  }

  /** configuration_table for the levels that compress; levels 1 to 3 use deflate_fast. */
  function ConfigOf(level: nat): (c: Config)
    requires 1 <= level <= 9
    ensures c.Ok()
  {
    match level
    case 1 => Config(4, 4, 8, 4)
    case 2 => Config(4, 5, 16, 8)
    case 3 => Config(4, 6, 32, 32)
    case 4 => Config(4, 4, 16, 16)
    case 5 => Config(8, 16, 32, 32)
    case 6 => Config(8, 16, 128, 128)
    case 7 => Config(8, 32, 128, 256)
    case 8 => Config(32, 128, 258, 1024)
    case 9 => Config(32, 258, 258, 4096)
  }

  /** The `n` bytes at `q` of the window are those at `p`, before it. */
  ghost predicate Same(w: seq<bv8>, p: nat, q: nat, n: nat) {
    p < q && q + n <= |w| && forall j :: q <= j < q + n ==> w[j] == w[j - (q - p)]
  }

  /** No more than `r` of the first `most` bytes at `q`, up to 258, are those at `p`. */
  ghost predicate Beaten(w: seq<bv8>, p: nat, q: nat, most: nat, r: nat) {
    forall n: nat :: n <= most && n <= MAX_MATCH && Same(w, p, q, n) ==> n <= r
  }

  /** Strings of the hash looked at in vain. */
  ghost predicate InVain(z: Hash, w: seq<bv8>, ins: set<nat>, v: seq<nat>, q: nat, most: nat, r: nat) {
    Descending(z, w, ins, v, q) && forall x :: x in v ==> Beaten(w, x, q, most, r)
  }

  /**
   * `r` is what a search among the inserted strings owes to the one at `q`: at least the length of the match with
   * the latest string of the same hash; and, unless it is good enough or all there is, at least that of the match
   * with any string in reach, or as many strings of the hash as the level allows have been looked at in vain.
   */
  ghost predicate Thorough(z: Hash, w: seq<bv8>, ins: set<nat>, q: nat, reach: int, most: nat, nice: nat, patience: nat, r: nat) {
    && (forall p :: p in ins && Alike(z, w, p, q) && NoneAfter(z, w, ins, p, q) && q - p <= reach ==> Beaten(w, p, q, most, r))
    && (r < nice && r < most ==>
      (forall p :: p in ins && q - p < reach && Same(w, p, q, 3) ==> Beaten(w, p, q, most, r))
      || exists v :: |v| == patience && InVain(z, w, ins, v, q, most, r))
  }

  /** The window's data are the end of what has been read. */
  ghost predicate Holds(w: seq<bv8>, stream: seq<bv8>, base: nat, end: nat) {
    end <= |w| && |stream| == base + end && w[..end] == stream[base..]
  }

  lemma {:induction false} SameIsGenuine(w: seq<bv8>, stream: seq<bv8>, base: nat, end: nat, p: nat, q: nat, n: nat)
    requires Holds(w, stream, base, end) && Same(w, p, q, n) && q - p <= 32768 && q + n <= end && 3 <= n <= 258
    ensures Genuine(stream, base + q, q - p, n)
  {
    forall i | base + q <= i < base + q + n ensures stream[i] == stream[i - (q - p)] {
      var j := i - base;
      assert w[j] == w[..end][j] == stream[base..][j];
      assert w[j - (q - p)] == w[..end][j - (q - p)] == stream[base..][j - (q - p)];
    }
  }

  /** All matches have 3 to 258 bytes, and none reaches further back than `limit`. */
  ghost predicate InReach(tokens: seq<Token>, limit: int) {
    forall i :: 0 <= i < |tokens| && tokens[i].Match? ==> 3 <= tokens[i].len <= 258 && 1 <= tokens[i].dist <= limit
  }

  /** Where the history was last forgotten: in the log and in the input. */
  datatype Mark = Mark(tokens: nat, place: nat)

  /** The log expands to the input up to `done`, and what was tallied since the mark to what came since the mark. */
  ghost predicate Tracks(tokens: seq<Token>, stream: seq<bv8>, done: int, mark: Mark) {
    && mark.place <= done <= |stream| && Expand(tokens) == Some(stream[..done])
    && mark.tokens <= |tokens| && Expand(tokens[mark.tokens..]) == Some(stream[mark.place..done])
  }

  /** A match found for the byte before strStart: within the window's reach, of data that is there, and since the mark. */
  ghost predicate HeldMatch(stream: seq<bv8>, pos: int, dist: int, len: nat, lookahead: nat, size: nat, mark: Mark) {
    && 0 <= pos && len <= lookahead + 1 && dist <= size - MIN_LOOKAHEAD && Genuine(stream, pos, dist, len)
    && mark.place <= pos - dist
  }

  lemma {:induction false} TracksMore(tokens: seq<Token>, s: seq<bv8>, t: seq<bv8>, done: int, mark: Mark)
    requires Tracks(tokens, s, done, mark) && s <= t
    ensures Tracks(tokens, t, done, mark)
  {
    hide Expand;
    assert t[..done] == s[..done] && t[mark.place..done] == s[mark.place..done];
  }

  class State {
    const size: nat
    const hash: Hash
    const config: Config
    const lazyParser: bool
    const filtered: bool
    const window: array<bv8>
    const head: array<nat>
    const prev: array<nat>

    var nextIn: seq<bv8>
    var strStart: nat
    var lookahead: nat
    var insert: nat
    var insH: bv32
    var matchLength: nat
    var prevLength: nat
    var matchStart: int
    var prevMatch: int
    var matchAvailable: bool
    var highWater: nat
    var tokens: seq<Token>

    /** All input read so far, the place of window[0] in it, and the strings in the hash chains. */
    ghost var stream: seq<bv8>
    ghost var base: nat
    ghost var ins: set<nat>
    ghost var top: nat

    /** Where the chains were last cleared. */
    ghost var mark: Mark

    /** deflateReset: lm_init for a level, a window size and a hash. */
    constructor (level: nat, wSize: nat, hash: Hash, filtered: bool)
      requires 1 <= level <= 9 && 512 <= wSize <= 32768 && hash.Ok()
      ensures Valid() && Parsing() && Complete() && stream == [] && tokens == [] && size == wSize && mark == Mark(0, 0)
      ensures config == ConfigOf(level) && (lazyParser <==> level >= 4) && this.filtered == filtered && this.hash == hash
      ensures fresh(window) && fresh(head) && fresh(prev)
    {
      this.size, this.hash, this.filtered := wSize, hash, filtered;
      config, lazyParser := ConfigOf(level), level >= 4;
      window := new bv8[2 * wSize];
      head := new nat[hash.Size()](_ => 0);
      prev := new nat[wSize];
      nextIn, tokens := [], [];
      strStart, lookahead, insert, highWater := 0, 0, 0, 0;
      insH := 0;
      matchLength, prevLength, matchStart, prevMatch := MIN_MATCH - 1, MIN_MATCH - 1, 0, 0;
      matchAvailable := false;
      stream, base, ins, top, mark := [], 0, {}, 0, Mark(0, 0);
    }

    function MaxDist(): nat
      requires size >= 512
    {
      size - MIN_LOOKAHEAD
    }

    predicate Shape() {
      && 512 <= size <= 32768 && hash.Ok() && config.Ok()
      && window.Length == 2 * size && prev.Length == size && head.Length == hash.Size() && head != prev
      && window as object != head && window as object != prev
    }

    /** The window, with data up to `end`, and the tables agree with what has been read. */
    ghost predicate TablesTo(end: nat)
      reads `stream, `base, `ins, `top, window, head, prev
    {
      && Shape() && end <= 2 * size
      && Holds(window[..], stream, base, end)
      && Chained(hash, window[..], size, end, head[..], prev[..], ins, top)
    }

    ghost predicate Tables()
      reads `strStart, `lookahead, `stream, `base, `ins, `top, window, head, prev
    {
      TablesTo(strStart + lookahead)
    }

    /** The strings still to be inserted come after those in the chains, and the running hash is ready for the next. */
    ghost predicate Ready()
      requires Shape()
      reads `strStart, `lookahead, `insert, `insH, `ins, `top, window
    {
      && insert <= strStart && Fresh(ins, top, strStart - insert)
      && (lookahead >= MIN_MATCH ==>
        insert == 0 && strStart + 1 < window.Length && hash.Rolled(insH, window[strStart], window[strStart + 1]))
    }

    /** The input the tokens stand for: all before strStart, but for a byte the lazy parser still holds. */
    ghost function Done(): int
      reads `base, `strStart, `matchAvailable
    {
      base + strStart - if matchAvailable then 1 else 0
    }

    /** The tokens expand to the input they stand for, and a match the lazy parser holds is genuine. */
    ghost predicate Progress()
      reads `base, `strStart, `matchAvailable, `stream, `tokens, `matchLength, `prevLength, `matchStart, `lookahead, `mark
    {
      && InReach(tokens, size - MIN_LOOKAHEAD) && mark.place <= base
      && matchLength <= MAX_MATCH && prevLength <= MAX_MATCH && (matchAvailable ==> 0 < strStart)
      && Tracks(tokens, stream, Done(), mark)
      && (matchLength >= MIN_MATCH ==>
        matchAvailable && HeldMatch(stream, Done(), strStart - 1 - matchStart, matchLength, lookahead, size, mark))
    }

    ghost predicate Valid()
      reads this, window, head, prev
    {
      Tables() && Ready() && Progress()
    }

    /** INSERT_STRING. */
    method InsertString(str: nat, ghost end: nat) returns (hashHead: nat)
      requires TablesTo(end) && str + 2 < end && Fresh(ins, top, str)
      requires hash.Rolled(insH, window[str], window[str + 1])
      modifies this`insH, this`ins, this`top, head, prev
      ensures TablesTo(end) && top == str && Fresh(ins, top, str + 1)
      ensures hash.Rolled(insH, window[str + 1], window[str + 2])
      ensures hashHead < str || hashHead == 0
      ensures hashHead != 0 ==> Names(hash, window[..], ins, hashHead, KeyAt(hash, window[..], str))
      ensures ins == With(old(ins), str) && NoneAfter(hash, window[..], old(ins), hashHead, str)
    {
      hide Hash.Ok, Hash.Size, Hash.Rolled, Hash.Key, Hash.Update, Index, KeyAt, Holds, HeadsName, LinksName;
      ghost var w := window[..];
      KeyFits(hash, w, str);
      KeyIs(hash, w, str, insH);
      insH := hash.Update(insH, window[str + 2]);
      Inserted(hash, w, size, end, head[..], prev[..], ins, top, str, Index(insH));
      ghost var h, l := head[..], prev[..];
      hashHead := head[Index(insH)];
      prev[Slot(str, size)] := hashHead;
      head[Index(insH)] := str;
      ins, top := With(ins, str), str;
      assert window[..] == w && head[..] == h[Index(insH) := str] && prev[..] == l[Slot(str, size) := hashHead];
    }

    /** The comparison of longest_match: from the fourth byte on, eight at a time, up to 258 bytes. */
    method Compare(cur: nat) returns (len: nat)
      requires Shape() && cur < strStart && strStart + MAX_MATCH < 2 * size && Same(window[..], cur, strStart, 3)
      ensures 3 <= len <= MAX_MATCH && Same(window[..], cur, strStart, len)
      ensures len < MAX_MATCH ==> window[cur + len] != window[strStart + len]
      ensures Beaten(window[..], cur, strStart, MAX_MATCH, len)
    {
      len := 2;
      var equal := true;
      ghost var m := 0;
      while equal && len < MAX_MATCH
        invariant 0 <= m <= 32 && 2 <= len <= MAX_MATCH
        invariant equal ==> len == 2 + 8 * m && Same(window[..], cur, strStart, if len < MAX_MATCH then len + 1 else len)
        invariant !equal ==> 3 <= len && Same(window[..], cur, strStart, len) && window[cur + len] != window[strStart + len]
        decreases 32 - m, equal
      {
        var k := 0;
        while k < 8 && equal
          invariant 0 <= k <= 8 && 2 <= len <= MAX_MATCH
          invariant len == 2 + 8 * m + k
          invariant equal ==> Same(window[..], cur, strStart, len + 1)
          invariant !equal ==> 3 <= len && Same(window[..], cur, strStart, len) && window[cur + len] != window[strStart + len]
          decreases 8 - k
        {
          len, k := len + 1, k + 1;
          equal := window[strStart + len] == window[cur + len];
        }
        m := if equal then m + 1 else m;
      }
    }

    lemma {:induction false} SearchFacts()
      requires Tables()
      ensures Shape() && Chained(hash, window[..], size, strStart + lookahead, head[..], prev[..], ins, top)
      ensures config.nice <= MAX_MATCH && config.chain >= 4
    {
    }

    /** The next string of the chain, prev[cur & w_mask]. */
    method Next(cur: nat, ghost k: nat) returns (next: nat)
      requires Tables() && 0 < cur < 2 * size && cur + size > top && Names(hash, window[..], ins, cur, k)
      ensures Names(hash, window[..], ins, next, k) && next < cur && next == prev[Slot(cur, size)]
    {
      hide Hash.Ok, Hash.Size, KeyAt, Holds, HeadsName, Within, LinksName, Names;
      NextInChain(hash, window[..], size, prev[..], ins, top, cur, k);
      next := prev[Slot(cur, size)];
    }

    /** One string of the chain: its last two bytes that would have to match, the first two, then the rest. */
    method TryMatch(cur: nat, bestLen: nat, scanEnd1: bv8, scanEnd: bv8) returns (len: nat)
      requires Shape() && 0 < cur < strStart <= 2 * size - MIN_LOOKAHEAD && 1 <= bestLen < MAX_MATCH
      requires Names(hash, window[..], ins, cur, KeyAt(hash, window[..], strStart))
      ensures len <= MAX_MATCH
      ensures len != 0 ==> Same(window[..], cur, strStart, len)
      ensures scanEnd1 == window[strStart + bestLen - 1] && scanEnd == window[strStart + bestLen] ==>
        Beaten(window[..], cur, strStart, MAX_MATCH, if len > bestLen then len else bestLen)
    {
      hide Hash.Ok, Hash.Size, KeyAt, Same, Names;
      len := 0;
      if window[cur + bestLen] == scanEnd && window[cur + bestLen - 1] == scanEnd1
        && window[cur] == window[strStart] && window[cur + 1] == window[strStart + 1]
      {
        ThirdSame(hash, window[..], ins, cur, strStart);
        len := Compare(cur);
      } else if scanEnd1 == window[strStart + bestLen - 1] && scanEnd == window[strStart + bestLen] {
        EndsDiffer(window[..], cur, strStart, bestLen);
      }
    }

    /** How many strings longest_match looks at when a match of `held` bytes is known. */
    function PatienceFor(held: nat): (n: nat)
      ensures config.chain >= 4 ==> n >= 1
    {
      if held >= config.good then config.chain / 4 else config.chain
    }

    function Patience(): (n: nat)
      reads `prevLength
      ensures config.chain >= 4 ==> n >= 1
    {
      PatienceFor(prevLength)
    }

    /** It does not look at strings at or before this place, but for the first one. */
    function Limit(): nat
      requires size >= 512
      reads `strStart
    {
      if strStart > MaxDist() then strStart - MaxDist() else 0
    }

    /** The strings that longest_match may look at: the one it is given and those its chain goes on to. */
    ghost function Candidates(first: nat): seq<nat>
      requires Shape() && first < 2 * size
      reads `strStart, `prevLength, prev
    {
      [first] + Walk(prev[..], size, Limit(), prev[Slot(first, size)], Patience() - 1)
    }

    /** `r` is no less than the match with the first candidate and, unless it is good enough or all there is, than that with any. */
    ghost predicate Longest(first: nat, r: nat)
      requires Shape() && first < 2 * size
      reads `strStart, `prevLength, `lookahead, prev, window
    {
      && Beaten(window[..], first, strStart, lookahead, r)
      && (r < config.nice && r < lookahead ==> forall c :: c in Candidates(first) ==> Beaten(window[..], c, strStart, lookahead, r))
    }

    /** What longest_match has found: the best length so far, and where. */
    ghost predicate Found(w: seq<bv8>, best: nat)
      requires Shape()
      reads `strStart, `prevLength, `matchStart
    {
      && prevLength <= best <= MAX_MATCH
      && (best > prevLength ==>
        0 < matchStart < strStart && strStart - matchStart <= MaxDist() && Same(w, matchStart, strStart, best))
    }

    lemma {:induction false} NothingFound(w: seq<bv8>)
      requires Shape() && prevLength <= MAX_MATCH
      ensures Found(w, prevLength)
    {
    }

    lemma {:induction false} FoundWithin(w: seq<bv8>, best: nat, r: nat)
      requires Shape() && Found(w, best) && r <= best
      ensures best <= MAX_MATCH && prevLength <= best
      ensures r > prevLength ==> 0 < matchStart < strStart && strStart - matchStart <= MaxDist() && Same(w, matchStart, strStart, r)
    {
      hide Same;
      if r > prevLength {
        SameShorter(w, matchStart, strStart, best, r);
      }
    }

    /** One string of the chain, taken if it is better. */
    method Look(cur: nat, best: nat, scanEnd1: bv8, scanEnd: bv8, ghost seen: seq<nat>) returns (r: nat)
      requires Shape() && 0 < cur < strStart <= 2 * size - MIN_LOOKAHEAD && strStart - cur <= MaxDist() && 1 <= best < MAX_MATCH
      requires Names(hash, window[..], ins, cur, KeyAt(hash, window[..], strStart))
      requires scanEnd1 == window[strStart + best - 1] && scanEnd == window[strStart + best]
      requires Found(window[..], best) && AllBeaten(window[..], seen, strStart, best)
      modifies this`matchStart
      ensures best <= r && Found(window[..], r) && AllBeaten(window[..], seen + [cur], strStart, r)
    {
      hide Hash.Ok, Hash.Size, KeyAt, Same, Names, Config.Ok, Beaten, AllBeaten;
      r := best;
      var len := TryMatch(cur, best, scanEnd1, scanEnd);
      BeatenMore(window[..], seen, cur, strStart, best, if len > best then len else best);
      if len > best {
        matchStart := cur;
        r := len;
      }
    }

    /** longest_match: the longest match for the string at strStart that the chain offers, if it is longer than prevLength;
        the search stops early at a match that is good enough. */
    method LongestMatch(hashHead: nat) returns (r: nat)
      requires Tables() && MIN_MATCH <= lookahead && strStart <= 2 * size - MIN_LOOKAHEAD && top == strStart
      requires 0 < hashHead < strStart && strStart - hashHead <= MaxDist() && 1 <= prevLength < MAX_MATCH
      requires Names(hash, window[..], ins, hashHead, KeyAt(hash, window[..], strStart))
      modifies this`matchStart
      ensures r <= lookahead && r <= MAX_MATCH && (prevLength <= r || lookahead == r)
      ensures r > prevLength ==>
        0 < matchStart < strStart && strStart - matchStart <= MaxDist() && Same(window[..], matchStart, strStart, r)
      ensures Longest(hashHead, r)
    {
      hide Hash.Ok, Hash.Size, KeyAt, Holds, HeadsName, Within, LinksName, Same, Names, Chained, Tables, Config.Ok, Beaten, AllBeaten, Longest,
        Walk, Candidates, Onward, Found;
      SearchFacts();
      var chainLength, niceMatch := config.chain, config.nice;
      var limit := if strStart > MaxDist() then strStart - MaxDist() else 0;
      if prevLength >= config.good {
        chainLength := chainLength / 4;
      }
      if niceMatch > lookahead {
        niceMatch := lookahead;
      }
      AllAhead(hashHead);
      var bestLen, seen, ahead := WalkChain(hashHead, limit, chainLength, niceMatch, Candidates(hashHead));
      r := if bestLen <= lookahead then bestLen else lookahead;
      FoundWithin(window[..], bestLen, r);
      Concludes(hashHead, seen, ahead, bestLen);
    }

    /** The loop of longest_match. */
    method WalkChain(hashHead: nat, limit: nat, patience: nat, niceMatch: nat, ghost candidates: seq<nat>)
      returns (bestLen: nat, ghost seen: seq<nat>, ghost ahead: seq<nat>)
      requires Tables() && strStart <= 2 * size - MIN_LOOKAHEAD && top == strStart && niceMatch <= MAX_MATCH && patience >= 1
      requires 0 < hashHead < strStart && strStart - hashHead <= MaxDist() && 1 <= prevLength < MAX_MATCH
      requires limit == Limit() && Onward(candidates, prev[..], size, limit, hashHead, patience)
      requires Names(hash, window[..], ins, hashHead, KeyAt(hash, window[..], strStart))
      modifies this`matchStart
      ensures Found(window[..], bestLen) && candidates == seen + ahead && hashHead in seen
      ensures AllBeaten(window[..], seen, strStart, bestLen) && (bestLen >= niceMatch || ahead == [])
    {
      hide Hash.Ok, Hash.Size, KeyAt, Holds, HeadsName, Within, LinksName, Same, Names, Chained, Tables, Config.Ok, Beaten, AllBeaten,
        Walk, Onward, Found;
      SearchFacts();
      ghost var w, k, links := window[..], KeyAt(hash, window[..], strStart), prev[..];
      var cur, chainLength := hashHead, patience;
      bestLen, seen, ahead := prevLength, [], candidates;
      NoneBeaten(w, strStart, bestLen);
      NothingFound(w);
      var scanEnd1, scanEnd := window[strStart + bestLen - 1], window[strStart + bestLen];
      while true
        invariant 0 < cur < strStart && strStart - cur <= MaxDist() && Names(hash, w, ins, cur, k)
        invariant 1 <= bestLen < MAX_MATCH && 1 <= chainLength && Found(w, bestLen)
        invariant scanEnd1 == w[strStart + bestLen - 1] && scanEnd == w[strStart + bestLen]
        invariant Onward(ahead, links, size, limit, cur, chainLength)
        invariant candidates == seen + ahead && (hashHead in seen || cur == hashHead) && AllBeaten(w, seen, strStart, bestLen)
        decreases cur
      {
        var len := Look(cur, bestLen, scanEnd1, scanEnd, seen);
        OnwardStep(ahead, links, size, limit, cur, chainLength);
        assert seen + ahead == (seen + [cur]) + ahead[1..];
        seen, ahead := seen + [cur], ahead[1..];
        if len > bestLen {
          bestLen := len;
          if len >= niceMatch {
            break;
          }
          scanEnd1, scanEnd := window[strStart + bestLen - 1], window[strStart + bestLen];
        }
        cur := Next(cur, k);
        if cur <= limit {
          break;
        }
        chainLength := chainLength - 1;
        if chainLength == 0 {
          break;
        }
      }
    }

    /** The search with the first candidate `first` is thorough with respect to the strings inserted before. */
    lemma {:induction false} SearchThorough(before: set<nat>, first: nat, r: nat)
      requires Tables() && top == strStart && lookahead >= MIN_MATCH && ins == With(before, strStart) && strStart !in before
      requires NoneAfter(hash, window[..], before, first, strStart) && 0 < first < strStart && strStart - first <= MaxDist()
      requires Names(hash, window[..], ins, first, KeyAt(hash, window[..], strStart)) && Longest(first, r)
      ensures Thorough(hash, window[..], before, strStart, MaxDist(), lookahead, config.nice, Patience(), r)
    {
      hide Hash.Ok, Hash.Size, KeyAt, Beaten, Names, Same, Holds, Chained;
      ghost var w, v := window[..], Candidates(first);
      CandidatesDescend(before, first);
      if r < config.nice && r < lookahead && |v| != Patience() {
        forall p | p in before && strStart - p < MaxDist() && Same(w, p, strStart, 3)
          ensures Beaten(w, p, strStart, lookahead, r)
        {
          CandidateAll(before, first, p);
        }
      } else {
        assert r < config.nice && r < lookahead ==> InVain(hash, w, before, v, strStart, lookahead, r);
      }
    }

    lemma {:induction false} CandidatesDescend(before: set<nat>, first: nat)
      requires Tables() && top == strStart && ins == With(before, strStart) && strStart !in before && lookahead >= MIN_MATCH
      requires 0 < first < strStart && strStart - first <= MaxDist() && Names(hash, window[..], ins, first, KeyAt(hash, window[..], strStart))
      ensures Descending(hash, window[..], before, Candidates(first), strStart) && first in before && Alike(hash, window[..], first, strStart)
    {
      hide Hash.Ok, Hash.Size, KeyAt, Holds, HeadsName, LinksName, Latest, Walk, Beaten, Same, Descending, Names;
      ChainDescends(hash, window[..], size, strStart + lookahead, head[..], prev[..], ins, top, Limit(), first, Patience() - 1, strStart);
      StillDescending(hash, window[..], ins, before, Candidates(first), strStart);
    }

    lemma {:induction false} CandidateAll(before: set<nat>, first: nat, p: nat)
      requires Tables() && top == strStart && ins == With(before, strStart) && strStart !in before && lookahead >= MIN_MATCH
      requires NoneAfter(hash, window[..], before, first, strStart) && 0 < first < strStart
      requires Names(hash, window[..], ins, first, KeyAt(hash, window[..], strStart)) && |Candidates(first)| != Patience()
      requires p in before && strStart - p < MaxDist() && Same(window[..], p, strStart, 3)
      ensures p in Candidates(first)
    {
      hide Hash.Ok, Hash.Size, KeyAt, Holds, HeadsName, Walk, Beaten, Same;
      ghost var w, next := window[..], prev[Slot(first, size)];
      SameAlike(hash, w, p, strStart);
      if p != first {
        NextInChain(hash, w, size, prev[..], ins, top, first, KeyAt(hash, w, strStart));
        WalksAll(hash, w, size, strStart + lookahead, head[..], prev[..], ins, top, Limit(), next, Patience() - 1, p);
      }
    }

    lemma {:induction false} AllAhead(first: nat)
      requires Shape() && first < 2 * size
      ensures config.chain >= 4 ==> Onward(Candidates(first), prev[..], size, Limit(), first, Patience())
    {
    }

    lemma {:induction false} Concludes(first: nat, seen: seq<nat>, ahead: seq<nat>, best: nat)
      requires Shape() && first < 2 * size && Candidates(first) == seen + ahead && first in seen
      requires AllBeaten(window[..], seen, strStart, best) && (best >= config.nice || best >= lookahead || ahead == [])
      ensures Longest(first, if best <= lookahead then best else lookahead)
    {
      hide Beaten, Candidates, Config.Ok, Hash.Ok, Hash.Size, AllBeaten;
      BeatenWithin(window[..], seen, strStart, best, lookahead);
      assert ahead == [] ==> seen + ahead == seen;
    }

    /** slide_hash. */
    method SlideHash()
      requires Shape()
      modifies head, prev
      ensures SlidTable(old(head[..]), head[..], size) && SlidTable(old(prev[..]), prev[..], size)
    {
      var n := head.Length;
      while n > 0
        invariant 0 <= n <= head.Length
        invariant forall i :: 0 <= i < n ==> head[i] == old(head[i])
        invariant forall i :: n <= i < head.Length ==> head[i] == SlidEntry(old(head[i]), size)
        invariant prev[..] == old(prev[..])
      {
        n := n - 1;
        head[n] := if head[n] >= size then head[n] - size else 0;
      }
      ghost var h := head[..];
      n := prev.Length;
      while n > 0
        invariant 0 <= n <= prev.Length
        invariant forall i :: 0 <= i < n ==> prev[i] == old(prev[i])
        invariant forall i :: n <= i < prev.Length ==> prev[i] == SlidEntry(old(prev[i]), size)
        invariant head[..] == h
      {
        n := n - 1;
        prev[n] := if prev[n] >= size then prev[n] - size else 0;
      }
    }

    /** fill_window's move of the upper half of the window to the lower. Everything keeps its place in the input. */
    method Slide()
      requires Tables() && strStart >= size + MaxDist() && insert <= strStart && Fresh(ins, top, strStart - insert)
      modifies `strStart, `insert, `matchStart, `base, `ins, `top, window, head, prev
      ensures Tables() && insert <= strStart && Fresh(ins, top, strStart - insert) && insert <= old(insert)
      ensures strStart == old(strStart) - size && base == old(base) + size && matchStart == old(matchStart) - size
    {
      hide Hash.Ok, Hash.Size, Config.Ok, Chained, Holds, Moved, Fresh, SlidSet, SlidEntry, SlidTable;
      ghost var w, h, l, end := window[..], head[..], prev[..], strStart + lookahead;
      FreshSlid(hash, w, size, end, h, l, ins, top, strStart, insert);
      MoveDown();
      ghost var v := window[..];
      matchStart := matchStart - size;
      strStart := strStart - size;
      if insert > strStart {
        insert := strStart;
      }
      assert head[..] == h && prev[..] == l;
      SlideHash();
      base := base + size;
      Slid(hash, w, v, size, end, h, head[..], l, prev[..], ins, top);
      ins, top := SlidSet(ins, size), SlidEntry(top, size);
      assert window[..] == v;
      HoldsMoved(w, v, stream, base - size, end, size);
    }

    /** Sliding changes no data that the running hash depends on. */
    method SlideReady()
      requires Tables() && Ready() && strStart >= size + MaxDist()
      modifies `strStart, `insert, `matchStart, `base, `ins, `top, window, head, prev
      ensures Tables() && Ready()
      ensures strStart == old(strStart) - size && base == old(base) + size && matchStart == old(matchStart) - size
    {
      hide Hash.Ok, Hash.Size, Hash.Rolled, Config.Ok, Chained, Fresh;
      ghost var w := window[..];
      Slide();
      if lookahead >= MIN_MATCH {
        HeldBytes(w, window[..], stream, base - size, base, strStart + size, strStart, lookahead);
        assert window[strStart] == w[strStart + size] && window[strStart + 1] == w[strStart + 1 + size];
      }
    }

    method MoveDown()
      requires Shape() && size <= strStart && strStart + lookahead <= 2 * size
      modifies window
      ensures Moved(old(window[..]), window[..], size, strStart + lookahead)
    {
      forall i | 0 <= i < strStart + lookahead - size {
        window[i] := window[i + size];
      }
    }

    method CopyIn(at: nat, data: seq<bv8>)
      requires at + |data| <= window.Length
      modifies window
      ensures window[..at] == old(window[..at]) && window[at..at + |data|] == data
    {
      forall i | 0 <= i < |data| {
        window[at + i] := data[i];
      }
    }

    /** read_buf into the window, with the lookahead. */
    method ReadBuf(more: nat) returns (n: nat)
      requires Tables() && strStart + lookahead + more <= 2 * size
      modifies `nextIn, `lookahead, `stream, window
      ensures Tables() && lookahead == old(lookahead) + n
      ensures n == if |old(nextIn)| > more then more else |old(nextIn)|
      ensures stream == old(stream) + old(nextIn)[..n] && nextIn == old(nextIn)[n..]
    {
      hide Hash.Ok, Hash.Size, Config.Ok, Chained, Holds;
      ghost var w, h, l, end := window[..], head[..], prev[..], strStart + lookahead;
      n := |nextIn|;
      if n > more {
        n := more;
      }
      var data := nextIn[..n];
      CopyIn(strStart + lookahead, data);
      nextIn := nextIn[n..];
      lookahead := lookahead + n;
      assert head[..] == h && prev[..] == l;
      assert window[..][..end] == w[..end] && window[..][end..end + n] == data;
      Grown(hash, w, window[..], size, end, end + n, h, l, ins, top);
      HoldsMore(w, window[..], stream, data, base, end);
      stream := stream + data;
    }

    /** fill_window's restart of the running hash, with the strings that were left to insert. */
    method Rehash()
      requires Tables() && insert <= strStart && Fresh(ins, top, strStart - insert)
      modifies `insert, `insH, `ins, `top, head, prev
      ensures Tables() && Ready()
    {
      hide Hash.Ok, Hash.Size, Hash.Update, Hash.Shifted, Config.Ok, Chained, Holds, Fresh;
      if lookahead + insert >= MIN_MATCH {
        var str := strStart - insert;
        insH := Wide(window[str]);
        insH := hash.Update(insH, window[str + 1]);
        while insert != 0
          invariant Tables() && insert <= strStart && str == strStart - insert && Fresh(ins, top, str)
          invariant lookahead + insert >= MIN_MATCH && hash.Rolled(insH, window[str], window[str + 1])
          decreases insert
        {
          var _ := InsertString(str, strStart + lookahead);
          str := str + 1;
          insert := insert - 1;
          if lookahead + insert < MIN_MATCH {
            break;
          }
        }
      }
    }

    /** fill_window's zeros behind the data, up to the bytes longest_match may look at. */
    method ZeroAhead()
      requires Tables()
      modifies `highWater, window
      ensures Tables() && window[..strStart + lookahead] == old(window[..strStart + lookahead])
    {
      hide Hash.Ok, Hash.Size, Config.Ok, HeadsName, LinksName, Within;
      ghost var w, h, l, end := window[..], head[..], prev[..], strStart + lookahead;
      if highWater < 2 * size {
        var curr := strStart + lookahead;
        if highWater < curr {
          var init := 2 * size - curr;
          if init > MAX_MATCH {
            init := MAX_MATCH;
          }
          forall i | curr <= i < curr + init {
            window[i] := 0;
          }
          highWater := curr + init;
        } else if highWater < curr + MAX_MATCH {
          var init := curr + MAX_MATCH - highWater;
          if init > 2 * size - highWater {
            init := 2 * size - highWater;
          }
          forall i | highWater <= i < highWater + init {
            window[i] := 0;
          }
          highWater := highWater + init;
        }
      }
      assert head[..] == h && prev[..] == l && window[..][..end] == w[..end];
      Grown(hash, w, window[..], size, end, end, h, l, ins, top);
    }

    /** What reading more input leaves as it is. */
    twostate predicate SameProgress()
      reads this
    {
      && base + strStart == old(base + strStart) && old(base) <= base && (old(strStart) > 0 ==> strStart > 0) && strStart - matchStart == old(strStart - matchStart)
      && old(stream) <= stream && stream + nextIn == old(stream + nextIn) && old(lookahead) <= lookahead
    }

    twostate lemma ProgressKept()
      requires old(Progress()) && SameProgress() && tokens == old(tokens) && mark == old(mark) && matchAvailable == old(matchAvailable)
      requires matchLength == old(matchLength) && prevLength == old(prevLength)
      ensures Progress()
    {
      hide Tracks, Genuine;
      TracksMore(tokens, old(stream), stream, Done(), mark);
      if matchLength >= MIN_MATCH {
        GenuineLonger(old(stream), stream, Done(), strStart - 1 - matchStart, matchLength);
      }
    }

    /** fill_window's loop. */
    method ReadAhead()
      requires Tables() && Ready() && lookahead < MIN_LOOKAHEAD
      modifies `nextIn, `strStart, `lookahead, `insert, `insH, `matchStart, `stream, `base, `ins, `top, window, head, prev
      ensures Tables() && Ready() && SameProgress()
      ensures strStart <= 2 * size - MIN_LOOKAHEAD
      ensures lookahead < MIN_LOOKAHEAD ==> nextIn == []
    {
      hide Hash.Ok, Hash.Size, Hash.Rolled, Config.Ok, Chained, Holds, Fresh;
      var again := true;
      while again
        invariant Tables() && Ready() && SameProgress()
        invariant again ==> lookahead < MIN_LOOKAHEAD
        invariant !again ==> strStart <= 2 * size - MIN_LOOKAHEAD && (lookahead < MIN_LOOKAHEAD ==> nextIn == [])
        decreases if again then 1 + |nextIn| else 0
      {
        var more := 2 * size - lookahead - strStart;
        if strStart >= size + MaxDist() {
          SlideReady();
          more := more + size;
        }
        if nextIn == [] {
          break;
        }
        var n := ReadBuf(more);
        Rehash();
        again := lookahead < MIN_LOOKAHEAD && nextIn != [];
      }
    }

    /** fill_window. */
    method FillWindow()
      requires Valid() && lookahead < MIN_LOOKAHEAD
      modifies `nextIn, `strStart, `lookahead, `insert, `insH, `matchStart, `highWater, `stream, `base, `ins, `top, window, head, prev
      ensures Valid() && SameProgress()
      ensures strStart <= 2 * size - MIN_LOOKAHEAD
      ensures lookahead < MIN_LOOKAHEAD ==> nextIn == []
    {
      hide Hash.Ok, Hash.Size, Hash.Rolled, Config.Ok, Chained, Holds, Fresh, Tracks, Genuine;
      ReadAhead();
      label L:
      ZeroAhead();
      SameData(old@L(window[..]), window[..], strStart + lookahead);
      ProgressKept();
    }

    /** deflate_fast's insertion of the strings inside a match, up to the data's `end`. */
    method InsertMatched(ghost end: nat)
      requires TablesTo(end) && 2 <= matchLength && strStart + matchLength + MIN_MATCH <= end
      requires Fresh(ins, top, strStart + 1) && hash.Rolled(insH, window[strStart + 1], window[strStart + 2])
      modifies `strStart, `matchLength, `insH, `ins, `top, head, prev
      ensures TablesTo(end) && Fresh(ins, top, strStart)
      ensures strStart == old(strStart + matchLength) && matchLength == 0
      ensures hash.Rolled(insH, window[strStart], window[strStart + 1])
    {
      hide Hash.Ok, Hash.Size, Hash.Rolled, Config.Ok, Chained, Holds, Fresh;
      matchLength := matchLength - 1;
      while matchLength != 0
        invariant TablesTo(end) && Fresh(ins, top, strStart + 1)
        invariant strStart + matchLength + 1 == old(strStart + matchLength) && strStart + matchLength + 4 <= end
        invariant hash.Rolled(insH, window[strStart + 1], window[strStart + 2])
        decreases matchLength
      {
        strStart := strStart + 1;
        var _ := InsertString(strStart, end);
        matchLength := matchLength - 1;
      }
      strStart := strStart + 1;
    }

    /** What deflate_fast keeps beside Valid(): it holds no match back and never changes prevLength. */
    ghost predicate Fast()
      reads `matchAvailable, `matchLength, `prevLength
    {
      !matchAvailable && matchLength < MIN_MATCH && prevLength == MIN_MATCH - 1
    }

    /** The search at strStart in deflate_fast: the string is inserted and a match looked for. */
    method SearchFast()
      requires Valid() && Fast() && 0 < lookahead && strStart <= 2 * size - MIN_LOOKAHEAD
      modifies `insH, `ins, `top, `matchLength, `matchStart, head, prev
      ensures Tables() && insert <= strStart
      ensures lookahead >= MIN_MATCH ==> insert == 0 && top == strStart && Fresh(ins, top, strStart + 1)
      ensures lookahead >= MIN_MATCH ==> hash.Rolled(insH, window[strStart + 1], window[strStart + 2])
      ensures lookahead < MIN_MATCH ==> Fresh(ins, top, strStart - insert) && matchLength < MIN_MATCH
      ensures matchLength >= MIN_MATCH ==> matchLength <= lookahead && strStart - matchStart <= MaxDist() && 0 <= matchStart
      ensures matchLength >= MIN_MATCH ==> Genuine(stream, base + strStart, strStart - matchStart, matchLength)
      ensures lookahead >= MIN_MATCH ==>
        Thorough(hash, window[..], old(ins), strStart, MaxDist(), lookahead, config.nice, Patience(), matchLength)
    {
      hide Hash.Ok, Hash.Size, Hash.Rolled, Config.Ok, Chained, Holds, Fresh, Genuine, Names, Same, KeyAt, Tracks, HeldMatch, Thorough, NoneAfter, Longest;
      var hashHead := 0;
      FreshHere();
      if lookahead >= MIN_MATCH {
        hashHead := InsertString(strStart, strStart + lookahead);
      }
      if hashHead != 0 && strStart - hashHead <= MaxDist() {
        matchLength := LongestMatch(hashHead);
        SearchThorough(old(ins), hashHead, matchLength);
        if matchLength >= MIN_MATCH {
          SameIsGenuine(window[..], stream, base, strStart + lookahead, matchStart, strStart, matchLength);
        }
      } else if lookahead >= MIN_MATCH {
        NothingInReach(old(ins), hashHead, matchLength);
      }
    }

    lemma {:induction false} FreshHere()
      requires Tables() && Ready()
      ensures lookahead >= MIN_MATCH ==> strStart !in ins && forall p :: p in ins ==> 0 < p < strStart
    {
      hide Hash.Ok, Hash.Size, HeadsName, LinksName, Latest, Holds;
    }

    /** When the chain begins out of reach there is nothing to find. */
    lemma {:induction false} NothingInReach(before: set<nat>, first: nat, r: nat)
      requires Shape() && (forall p :: p in before ==> 0 < p < strStart) && NoneAfter(hash, window[..], before, first, strStart)
      requires first == 0 || strStart - first > MaxDist()
      ensures Thorough(hash, window[..], before, strStart, MaxDist(), lookahead, config.nice, Patience(), r)
    {
      hide Hash.Ok, Hash.Size, KeyAt, Beaten, Same, Config.Ok, Alike;
      AllSameAlike(hash, window[..], before, strStart);
    }

    /** The tally of the match that deflate_fast found. */
    method TallyFound() returns (ghost dist: nat)
      requires size >= 512 && Tracks(tokens, stream, base + strStart, mark) && InReach(tokens, MaxDist())
      requires matchLength <= lookahead && strStart - matchStart <= MaxDist() && mark.place <= base + matchStart
      requires Genuine(stream, base + strStart, strStart - matchStart, matchLength)
      modifies `lookahead, `tokens
      ensures Tracks(tokens, stream, base + strStart + matchLength, mark) && InReach(tokens, MaxDist())
      ensures tokens == old(tokens) + [Match(dist, matchLength)] && lookahead == old(lookahead) - matchLength && matchLength <= 258
    {
      hide Tracks, Genuine, InReach;
      GenuineBounds(stream, base + strStart, strStart - matchStart, matchLength);
      TracksMatch(tokens, stream, base + strStart, strStart - matchStart, matchLength, mark);
      dist := strStart - matchStart;
      InReachMatch(tokens, MaxDist(), dist, matchLength);
      tokens := tokens + [Match(strStart - matchStart, matchLength)];
      lookahead := lookahead - matchLength;
    }

    /** deflate_fast tallies the match it found and moves behind it. */
    method TakeMatch() returns (ghost dist: nat)
      requires Tables() && insert == 0 && top == strStart && Fresh(ins, top, strStart + 1) && strStart <= 2 * size - MIN_LOOKAHEAD
      requires lookahead >= MIN_MATCH && hash.Rolled(insH, window[strStart + 1], window[strStart + 2])
      requires Tracks(tokens, stream, base + strStart, mark) && InReach(tokens, MaxDist())
      requires MIN_MATCH <= matchLength <= lookahead && strStart - matchStart <= MaxDist() && mark.place <= base + matchStart
      requires Genuine(stream, base + strStart, strStart - matchStart, matchLength)
      modifies `insH, `ins, `top, `matchLength, `strStart, `lookahead, `tokens, head, prev
      ensures Tables() && Ready() && matchLength == 0 && Tracks(tokens, stream, base + strStart, mark) && InReach(tokens, MaxDist())
      ensures tokens == old(tokens) + [Match(dist, old(matchLength))]
      ensures lookahead < old(lookahead) && strStart + lookahead == old(strStart + lookahead)
    {
      hide Hash.Ok, Hash.Size, Hash.Rolled, Hash.Update, Config.Ok, Chained, Holds, Tracks, Genuine, InReach;
      ghost var end := strStart + lookahead;
      dist := TallyFound();
      if matchLength <= config.lazy && lookahead >= MIN_MATCH {
        InsertMatched(end);
      } else {
        strStart := strStart + matchLength;
        matchLength := 0;
        insH := Wide(window[strStart]);
        insH := hash.Update(insH, window[strStart + 1]);
        Restarted(hash, window[strStart], window[strStart + 1]);
      }
    }

    /** What deflate_fast does with the byte at strStart: the match that a thorough search found is tallied, or a
        literal when it is shorter than three bytes. */
    method StepFast() returns (ghost found: nat)
      requires Valid() && Fast() && 0 < lookahead && strStart <= 2 * size - MIN_LOOKAHEAD
      modifies `insH, `ins, `top, `matchLength, `matchStart, `strStart, `lookahead, `tokens, head, prev
      ensures Valid() && Fast() && lookahead < old(lookahead) && strStart + lookahead == old(strStart + lookahead)
      ensures old(lookahead) >= 3 ==>
        Thorough(hash, window[..], old(ins), old(strStart), size - 262, old(lookahead), config.nice, config.chain, found)
      ensures found < 3 ==> tokens == old(tokens) + [Literal(window[old(strStart)])]
      ensures found >= 3 ==> exists dist: nat :: tokens == old(tokens) + [Match(dist, found)]
    {
      hide Hash.Ok, Hash.Size, Hash.Rolled, Hash.Update, Config.Ok, Chained, Holds, Tracks, Genuine, Thorough, InReach, HeldMatch;
      GoodEnough();
      SearchFast();
      found := matchLength;
      if matchLength >= MIN_MATCH {
        ghost var dist := TakeMatch();
      } else {
        TakeByte();
      }
    }

    /** deflate_fast tallies the byte at strStart. */
    method TakeByte()
      requires Tables() && insert <= strStart && 0 < lookahead && Fast() && mark.place <= base
      requires lookahead >= MIN_MATCH ==> insert == 0 && top == strStart && hash.Rolled(insH, window[strStart + 1], window[strStart + 2])
      requires Fresh(ins, top, if lookahead >= MIN_MATCH then strStart + 1 else strStart - insert)
      requires Tracks(tokens, stream, base + strStart, mark) && InReach(tokens, MaxDist())
      modifies `tokens, `lookahead, `strStart
      ensures Valid() && Fast() && lookahead == old(lookahead) - 1 && strStart == old(strStart) + 1
      ensures tokens == old(tokens) + [Literal(window[old(strStart)])]
    {
      hide Hash.Ok, Hash.Size, Hash.Rolled, Config.Ok, Chained, Holds, Tracks, Genuine;
      WindowByte(window[..], stream, base, strStart + lookahead, strStart);
      TracksLiteral(tokens, stream, base + strStart, mark);
      tokens := tokens + [Literal(window[strStart])];
      lookahead := lookahead - 1;
      strStart := strStart + 1;
    }

    lemma {:induction false} GoodEnough()
      requires Valid() && Fast()
      ensures Patience() == config.chain
    {
    }

    /** At the end of the data the last two strings, and no others, are left to insert. */
    method LeaveLast()
      requires Tables() && lookahead == 0
      modifies `insert
      ensures Ready()
    {
      hide Hash.Ok, Hash.Size, Hash.Rolled, Hash.Update, Config.Ok, HeadsName, LinksName, Within, Holds;
      insert := if strStart < MIN_MATCH - 1 then strStart else MIN_MATCH - 1;
    }

    /** All input that was there has been read, and the tokens stand for all that has been read. */
    ghost predicate Complete()
      reads `nextIn, `lookahead, `matchAvailable
    {
      nextIn == [] && lookahead == 0 && !matchAvailable
    }

    lemma {:induction false} StreamLength()
      requires Valid()
      ensures |stream| == base + strStart + lookahead && (lookahead >= MIN_LOOKAHEAD ==> strStart <= 2 * size - MIN_LOOKAHEAD)
    {
      hide Hash.Ok, Hash.Size, Hash.Rolled, Config.Ok, Chained, Tracks, Fresh;
      HoldsLength(window[..], stream, base, strStart + lookahead);
    }

    /** The end of deflate_fast. */
    method EndFast()
      requires Valid() && Fast() && lookahead == 0
      modifies `insert
      ensures Valid() && Fast()
    {
      hide Hash.Ok, Hash.Size, Hash.Rolled, Hash.Update, Config.Ok, Chained, Holds, Tracks, Genuine, Fresh;
      LeaveLast();
    }

    /** What a call comes to when the output is never full: without a flush, less than 262 bytes are left to look at. */
    ghost predicate Unstalled(flush: Flush, status: Status)
      reads `nextIn, `lookahead
    {
      if flush == NoFlush then status == NeedMore && nextIn == [] && lookahead < 262
      else if flush == Finish then status == FinishDone
      else status == BlockDone
    }

    /** deflate_fast. Blocks may be written, and the output may be full, at any token; `stalled` says that it was. */
    method DeflateFast(flush: Flush) returns (status: Status, ghost stalled: bool)
      requires Valid() && Fast()
      modifies this, window, head, prev
      ensures Valid() && Fast()
      ensures old(stream) <= stream && stream + nextIn == old(stream + nextIn)
      ensures status != NeedMore ==> Complete()
      ensures Ends(status) ==> flush == Finish
      ensures mark == old(mark) && (!stalled ==> Unstalled(flush, status))
    {
      hide State.Valid, Thorough;
      while true
        invariant Valid() && Fast()
        invariant old(stream) <= stream && stream + nextIn == old(stream + nextIn) && mark == old(mark)
        decreases |nextIn| + lookahead
      {
        StreamLength();
        if lookahead < MIN_LOOKAHEAD {
          FillWindow();
          StreamLength();
          if lookahead < MIN_LOOKAHEAD && flush == NoFlush {
            return NeedMore, false;
          }
          if lookahead == 0 {
            break;
          }
        }
        ghost var found := StepFast();
        var flushed: bool, full: bool := *, *;
        if flushed && full {
          return NeedMore, true;
        }
      }
      EndFast();
      if flush == Finish {
        var full: bool := *;
        return if full then FinishStarted else FinishDone, full;
      }
      var full: bool := *;
      status, stalled := if full then NeedMore else BlockDone, full;
    }

    /** What remains of a match of `r` bytes: one of five or less is dropped by a filtered strategy, one of three when
        it is more than 4096 bytes away. */
    predicate Keeps(r: nat, dist: int, kept: nat) {
      kept == if r <= 5 && (filtered || (r == 3 && dist > 4096)) then 2 else r
    }

    /** deflate_slow's call of longest_match; a short match that is too far away is dropped. */
    method LookLonger(hashHead: nat) returns (ghost r: nat)
      requires Tables() && MIN_MATCH <= lookahead && strStart <= 2 * size - MIN_LOOKAHEAD && top == strStart
      requires 0 < hashHead < strStart && strStart - hashHead <= MaxDist() && 2 <= prevLength < MAX_MATCH && mark.place <= base
      requires Names(hash, window[..], ins, hashHead, KeyAt(hash, window[..], strStart))
      modifies `matchLength, `matchStart
      ensures 2 <= matchLength <= MAX_MATCH
      ensures matchLength >= MIN_MATCH && matchLength > prevLength ==>
        HeldMatch(stream, base + strStart, strStart - matchStart, matchLength, lookahead - 1, size, mark)
      ensures Longest(hashHead, r) && Keeps(r, strStart - matchStart, matchLength)
    {
      hide Hash.Ok, Hash.Size, Chained, Holds, Genuine, Names, Same, KeyAt, HeldMatch, HeadsName, Longest;
      matchLength := LongestMatch(hashHead);
      r := matchLength;
      if matchLength >= MIN_MATCH && matchLength > prevLength {
        FoundIsHeld(window[..], stream, base, strStart, lookahead, matchStart, matchLength, size, mark);
      }
      if matchLength <= 5 && (filtered || (matchLength == MIN_MATCH && strStart - matchStart > TOO_FAR)) {
        matchLength := MIN_MATCH - 1;
      }
    }

    /** The lazy parser's search at strStart: the string is inserted, the match found last is put aside, and a longer one looked for. */
    method SearchSlow() returns (ghost r: nat)
      requires Valid() && 2 <= matchLength && 0 < lookahead && strStart <= 2 * size - MIN_LOOKAHEAD
      modifies `insH, `ins, `top, `matchLength, `matchStart, `prevLength, `prevMatch, head, prev
      ensures Tables() && insert <= strStart && 2 <= matchLength <= MAX_MATCH
      ensures prevLength == old(matchLength) && prevMatch == old(matchStart)
      ensures lookahead >= MIN_MATCH ==> insert == 0 && top == strStart && Fresh(ins, top, strStart + 1)
      ensures lookahead >= MIN_MATCH ==> hash.Rolled(insH, window[strStart + 1], window[strStart + 2])
      ensures lookahead < MIN_MATCH ==> Fresh(ins, top, strStart - insert)
      ensures matchLength >= MIN_MATCH && matchLength > prevLength ==>
        HeldMatch(stream, base + strStart, strStart - matchStart, matchLength, lookahead - 1, size, mark)
      ensures Keeps(r, strStart - matchStart, matchLength)
      ensures lookahead >= MIN_MATCH && prevLength < config.lazy ==>
        Thorough(hash, window[..], old(ins), strStart, MaxDist(), lookahead, config.nice, Patience(), r)
    {
      hide Hash.Ok, Hash.Size, Hash.Rolled, Chained, Holds, Fresh, Genuine, Names, Same, KeyAt, Tracks, HeldMatch, HeadsName, Thorough, NoneAfter, Longest;
      var hashHead := 0;
      FreshHere();
      if lookahead >= MIN_MATCH {
        hashHead := InsertString(strStart, strStart + lookahead);
      }
      prevLength, prevMatch := matchLength, matchStart;
      matchLength := MIN_MATCH - 1;
      r := matchLength;
      if hashHead != 0 && prevLength < config.lazy && strStart - hashHead <= MaxDist() {
        r := LookLonger(hashHead);
        SearchThorough(old(ins), hashHead, r);
      } else if lookahead >= MIN_MATCH && prevLength < config.lazy {
        NothingInReach(old(ins), hashHead, r);
      }
    }

    /** deflate_slow's insertion of the strings inside the match it tallied, as far as there are three bytes. */
    method InsertRest(maxInsert: nat, ghost end: nat)
      requires TablesTo(end) && maxInsert + MIN_MATCH == end && 1 <= prevLength && strStart + prevLength + 1 <= end && insert <= strStart + 1
      requires strStart + 4 <= end ==> insert == 0 && hash.Rolled(insH, window[strStart + 1], window[strStart + 2])
      requires Fresh(ins, top, strStart + 1 - insert)
      modifies `strStart, `prevLength, `insH, `ins, `top, head, prev
      ensures TablesTo(end) && prevLength == 0 && strStart == old(strStart + prevLength) && insert <= strStart + 1
      ensures strStart + 4 <= end ==> insert == 0 && hash.Rolled(insH, window[strStart + 1], window[strStart + 2])
      ensures Fresh(ins, top, strStart + 1 - insert)
    {
      hide Hash.Ok, Hash.Size, Hash.Rolled, Config.Ok, Chained, Holds;
      while prevLength != 0
        invariant TablesTo(end) && strStart + prevLength == old(strStart + prevLength) && insert <= strStart + 1
        invariant strStart + 4 <= end ==> insert == 0 && hash.Rolled(insH, window[strStart + 1], window[strStart + 2])
        invariant Fresh(ins, top, strStart + 1 - insert)
        decreases prevLength
      {
        strStart := strStart + 1;
        if strStart <= maxInsert {
          var _ := InsertString(strStart, end);
        }
        prevLength := prevLength - 1;
      }
    }

    /** The tally of the match held back. */
    method TallyHeld()
      requires size >= 512 && 0 < strStart && Tracks(tokens, stream, base + strStart - 1, mark) && InReach(tokens, MaxDist())
      requires HeldMatch(stream, base + strStart - 1, strStart - 1 - prevMatch, prevLength, lookahead, size, mark)
      modifies `tokens, `lookahead, `prevLength
      ensures MIN_MATCH <= old(prevLength) <= old(lookahead) + 1 && prevLength == old(prevLength) - 2
      ensures lookahead == old(lookahead) - (old(prevLength) - 1)
      ensures Tracks(tokens, stream, base + strStart + 1 + prevLength, mark) && InReach(tokens, MaxDist())
      ensures prevMatch < strStart && tokens == old(tokens) + [Match(strStart - 1 - prevMatch, old(prevLength))]
    {
      hide Tracks, Genuine, InReach;
      GenuineBounds(stream, base + strStart - 1, strStart - 1 - prevMatch, prevLength);
      TracksMatch(tokens, stream, base + strStart - 1, strStart - 1 - prevMatch, prevLength, mark);
      InReachMatch(tokens, MaxDist(), strStart - 1 - prevMatch, prevLength);
      tokens := tokens + [Match(strStart - 1 - prevMatch, prevLength)];
      lookahead := lookahead - (prevLength - 1);
      prevLength := prevLength - 2;
    }

    /** deflate_slow tallies the match it held back, for the byte before strStart, and moves behind it. */
    method TakeHeld()
      requires Tables() && insert <= strStart && MIN_MATCH <= prevLength
      requires lookahead >= MIN_MATCH ==> insert == 0 && hash.Rolled(insH, window[strStart + 1], window[strStart + 2])
      requires Fresh(ins, top, if lookahead >= MIN_MATCH then strStart + 1 else strStart - insert)
      requires 0 < base + strStart && Tracks(tokens, stream, base + strStart - 1, mark) && 0 < strStart && InReach(tokens, MaxDist())
      requires HeldMatch(stream, base + strStart - 1, strStart - 1 - prevMatch, prevLength, lookahead, size, mark)
      modifies `insH, `ins, `top, `matchLength, `matchAvailable, `prevLength, `strStart, `lookahead, `tokens, head, prev
      ensures Tables() && Ready() && !matchAvailable && matchLength == 2 && prevLength == 0
      ensures Tracks(tokens, stream, base + strStart, mark) && InReach(tokens, MaxDist())
      ensures lookahead < old(lookahead) && strStart + lookahead == old(strStart + lookahead)
      ensures prevMatch < old(strStart) && tokens == old(tokens) + [Match(old(strStart) - 1 - prevMatch, old(prevLength))]
    {
      hide HeldMatch, Hash.Ok, Hash.Size, Hash.Rolled, Config.Ok, Chained, Holds, Tracks, Genuine, InReach;
      ghost var end := strStart + lookahead;
      var maxInsert := strStart + lookahead - MIN_MATCH;
      TallyHeld();
      InsertRest(maxInsert, end);
      matchAvailable := false;
      matchLength := MIN_MATCH - 1;
      strStart := strStart + 1;
    }

    /** What deflate_slow keeps beside Valid(). */
    ghost predicate Slow()
      reads `matchLength
    {
      2 <= matchLength
    }

    /** Whether the match held back, of `held` bytes, is tallied when the search after it has found `r`. */
    predicate Settles(held: nat, r: nat) {
      held >= 3 && (r <= held || (filtered && r <= 5))
    }

    /** What deflate_slow does with the byte at strStart, after a thorough search unless the match held back is long
        enough: the match held back is tallied when nothing longer was found; otherwise what was found is held back,
        and the byte held back, if any, becomes a literal. */
    method StepSlow() returns (tallied: bool, ghost r: nat)
      requires Valid() && Slow() && 0 < lookahead && strStart <= 2 * size - MIN_LOOKAHEAD
      modifies `insH, `ins, `top, `matchLength, `matchStart, `prevLength, `prevMatch, `matchAvailable,
        `strStart, `lookahead, `tokens, head, prev
      ensures Valid() && Slow() && lookahead < old(lookahead) && strStart + lookahead == old(strStart + lookahead)
      ensures old(lookahead) >= 3 && old(matchLength) < config.lazy ==>
        Thorough(hash, window[..], old(ins), old(strStart), size - 262, old(lookahead), config.nice, PatienceFor(old(matchLength)), r)
      ensures Settles(old(matchLength), r) ==>
        tallied && !matchAvailable && exists dist: nat :: tokens == old(tokens) + [Match(dist, old(matchLength))]
      ensures !Settles(old(matchLength), r) ==>
        matchAvailable && strStart == old(strStart) + 1 && Keeps(r, old(strStart) - matchStart, matchLength) && tallied == old(matchAvailable)
        && tokens == old(tokens) + if old(matchAvailable) then [Literal(window[old(strStart) - 1])] else []
    {
      hide Hash.Ok, Hash.Size, Hash.Rolled, Config.Ok, Chained, Holds, Tracks, Genuine, InReach, Thorough, HeldMatch;
      r := SearchSlow();
      tallied := true;
      if prevLength >= MIN_MATCH && matchLength <= prevLength {
        TakeHeld();
      } else {
        tallied := HoldBack();
      }
    }

    /** deflate_slow moves on by one byte and holds back what it has found there; the byte held so far is tallied. */
    method HoldBack() returns (tallied: bool)
      requires Tables() && insert <= strStart && 2 <= matchLength <= MAX_MATCH && prevLength <= MAX_MATCH && 0 < lookahead
      requires lookahead >= MIN_MATCH ==> insert == 0 && top == strStart && hash.Rolled(insH, window[strStart + 1], window[strStart + 2])
      requires Fresh(ins, top, if lookahead >= MIN_MATCH then strStart + 1 else strStart - insert)
      requires Tracks(tokens, stream, Done(), mark) && (matchAvailable ==> 0 < strStart) && InReach(tokens, MaxDist())
      requires matchLength >= MIN_MATCH ==> HeldMatch(stream, base + strStart, strStart - matchStart, matchLength, lookahead - 1, size, mark)
      requires mark.place <= base
      modifies `matchAvailable, `strStart, `lookahead, `tokens
      ensures Valid() && Slow() && matchAvailable && lookahead == old(lookahead) - 1 && strStart == old(strStart) + 1
      ensures tallied == old(matchAvailable) && tokens == old(tokens) + if tallied then [Literal(window[old(strStart) - 1])] else []
    {
      hide Hash.Ok, Hash.Size, Hash.Rolled, Config.Ok, Chained, Holds, Tracks, Genuine, InReach, HeldMatch;
      if matchAvailable {
        TakeLiteral();
        strStart := strStart + 1;
        lookahead := lookahead - 1;
        tallied := true;
      } else {
        matchAvailable := true;
        strStart := strStart + 1;
        lookahead := lookahead - 1;
        tallied := false;
      }
    }

    /** The byte held back becomes a literal. */
    method TakeLiteral()
      requires Tables() && 0 < strStart && Tracks(tokens, stream, base + strStart - 1, mark) && InReach(tokens, MaxDist())
      modifies `tokens
      ensures Tracks(tokens, stream, base + strStart, mark) && InReach(tokens, MaxDist()) && tokens == old(tokens) + [Literal(window[strStart - 1])]
    {
      hide Hash.Ok, Hash.Size, Config.Ok, Chained, Holds, Tracks;
      WindowByte(window[..], stream, base, strStart + lookahead, strStart - 1);
      TracksLiteral(tokens, stream, base + strStart - 1, mark);
      tokens := tokens + [Literal(window[strStart - 1])];
    }

    /** The end of deflate_slow: a byte still held back is tallied. */
    method EndSlow()
      requires Valid() && Slow() && lookahead == 0
      modifies `tokens, `matchAvailable, `insert
      ensures Valid() && Slow() && !matchAvailable
    {
      hide Hash.Ok, Hash.Size, Hash.Rolled, Hash.Update, Config.Ok, Chained, Holds, Tracks, Genuine, Fresh;
      if matchAvailable {
        TakeLiteral();
        matchAvailable := false;
      }
      LeaveLast();
    }

    /** deflate_slow. */
    method DeflateSlow(flush: Flush) returns (status: Status, ghost stalled: bool)
      requires Valid() && Slow()
      modifies this, window, head, prev
      ensures Valid() && Slow()
      ensures old(stream) <= stream && stream + nextIn == old(stream + nextIn)
      ensures status != NeedMore ==> Complete()
      ensures Ends(status) ==> flush == Finish
      ensures mark == old(mark) && (!stalled ==> Unstalled(flush, status))
    {
      hide State.Valid, Thorough, State.Settles, State.Keeps;
      while true
        invariant Valid() && Slow()
        invariant old(stream) <= stream && stream + nextIn == old(stream + nextIn) && mark == old(mark)
        decreases |nextIn| + lookahead
      {
        StreamLength();
        if lookahead < MIN_LOOKAHEAD {
          FillWindow();
          StreamLength();
          if lookahead < MIN_LOOKAHEAD && flush == NoFlush {
            return NeedMore, false;
          }
          if lookahead == 0 {
            break;
          }
        }
        var tallied;
        ghost var found;
        tallied, found := StepSlow();
        var full: bool := *;
        if tallied && full {
          return NeedMore, true;
        }
      }
      EndSlow();
      var full: bool := *;
      if flush == Finish {
        return if full then FinishStarted else FinishDone, full;
      }
      status, stalled := if full then NeedMore else BlockDone, full;
    }

    /** The parser's own invariant, by level. */
    ghost predicate Parsing()
      reads `matchAvailable, `matchLength, `prevLength
    {
      if lazyParser then Slow() else Fast()
    }

    method ClearHeads()
      modifies head
      ensures forall j :: 0 <= j < head.Length ==> head[j] == 0
    {
      for i := 0 to head.Length
        invariant forall j :: 0 <= j < i ==> head[j] == 0
      {
        head[i] := 0;
      }
    }

    /** CLEAR_HASH after a full flush: the history is forgotten, and the window starts over. */
    method Forget()
      requires Valid() && Parsing() && Complete()
      modifies `strStart, `insert, `base, `ins, `top, `matchStart, `mark, head
      ensures Valid() && Parsing() && Complete() && mark == Mark(|tokens|, |stream|)
    {
      hide Hash.Ok, Hash.Size, Hash.Rolled, Config.Ok, Chained, Tracks, Genuine, InReach;
      TableSizes();
      TracksAfresh(tokens, stream, mark);
      HoldsLength(window[..], stream, base, strStart);
      ghost var w, l := window[..], prev[..];
      ClearHeads();
      assert window[..] == w && prev[..] == l;
      ins, top := {}, 0;
      if lookahead == 0 {
        base := base + strStart;
        strStart, insert := 0, 0;
      }
      mark := Mark(|tokens|, |stream|);
      Cleared(hash, window[..], size, strStart + lookahead, head[..], prev[..]);
    }

    lemma {:induction false} TableSizes()
      requires Tables()
      ensures Shape() && strStart + lookahead <= 2 * size
    {
    }

    /** One call of deflate(), as far as parsing goes. After a full flush nothing refers to what came before. */
    method Deflate(flush: Flush) returns (status: Status, ghost stalled: bool)
      requires Valid() && Parsing()
      modifies this, window, head, prev
      ensures Valid() && Parsing()
      ensures old(stream) <= stream && stream + nextIn == old(stream + nextIn)
      ensures status != NeedMore ==> Complete()
      ensures Ends(status) ==> flush == Finish
      ensures !stalled ==> Unstalled(flush, status)
      ensures mark == if flush == FullFlush && status == BlockDone then Mark(|tokens|, |stream|) else old(mark)
    {
      hide Valid, Slow, Fast;
      if lazyParser {
        status, stalled := DeflateSlow(flush);
      } else {
        status, stalled := DeflateFast(flush);
      }
      if status == BlockDone && flush == FullFlush {
        Forget();
      }
    }

    /** When everything has been parsed, the tokens expand to the input. */
    lemma {:induction false} CompleteExpands()
      requires Valid() && Complete()
      ensures Expand(tokens) == Some(stream) && InReach(tokens, size - MIN_LOOKAHEAD)
    {
      hide Hash.Ok, Hash.Size, Hash.Rolled, Config.Ok, Chained, Expand;
      assert stream[..Done()] == stream;
    }

    /** The caller makes more input available. */
    method Supply(more: seq<bv8>)
      requires Valid() && Parsing()
      modifies `nextIn
      ensures Valid() && Parsing() && stream == old(stream) && nextIn == old(nextIn) + more
    {
      hide Tables, Ready, Progress;
      nextIn := nextIn + more;
    }

    /** A call with its input. */
    method Serve(input: seq<bv8>, flush: Flush) returns (status: Status, ghost stalled: bool)
      requires Valid() && Parsing()
      modifies this, window, head, prev
      ensures Valid() && Parsing() && stream + nextIn == old(stream + nextIn) + input
      ensures status != NeedMore ==> Complete() && nextIn == []
      ensures Ends(status) ==> flush == Finish
      ensures !stalled ==> Unstalled(flush, status) && (flush == FullFlush ==> status == BlockDone)
      ensures mark.place == if flush == FullFlush && status == BlockDone then |stream + nextIn| else old(mark.place)
    {
      hide Valid, Parsing;
      Supply(input);
      status, stalled := Deflate(flush);
      assert stream + [] == stream;
    }

    lemma {:induction false} Prefix()
      requires Valid()
      ensures Expand(tokens).Some? && Expand(tokens).value <= stream && InReach(tokens, size - MIN_LOOKAHEAD)
    {
      hide Tables, Ready, Expand;
    }

    lemma {:induction false} NothingLeft()
      requires Complete()
      ensures nextIn == []
    {
    }

    /** What was tallied since the mark stands for what came since. */
    lemma {:induction false} SinceMark()
      requires Valid() && Complete()
      ensures mark.tokens <= |tokens| && mark.place <= |stream| && Expand(tokens[mark.tokens..]) == Some(stream[mark.place..])
    {
      hide Hash.Ok, Hash.Size, Hash.Rolled, Config.Ok, Chained, Expand;
      assert stream[mark.place..Done()] == stream[mark.place..];
    }

    lemma {:induction false} UnstalledStatus(flush: Flush, status: Status)
      requires Unstalled(flush, status)
      ensures status == match flush case NoFlush => NeedMore case Finish => FinishDone case _ => BlockDone
    {
    }

    /** How much is not tallied when a call comes back. */
    lemma {:induction false} Behindhand(flush: Flush, status: Status)
      requires Valid() && Unstalled(flush, status) && (status != NeedMore ==> Complete())
      ensures Expand(tokens).Some? && |stream + nextIn| - |Expand(tokens).value| <= 262
    {
      hide Hash.Ok, Hash.Size, Hash.Rolled, Config.Ok, Chained, Expand;
    }
  }

  lemma {:induction false} SameData(w: seq<bv8>, v: seq<bv8>, end: nat)
    requires |w| == |v| && end <= |w| && v[..end] == w[..end]
    ensures forall i :: 0 <= i < end ==> v[i] == w[i]
  {
    forall i | 0 <= i < end ensures v[i] == w[i] {
      assert v[..end][i] == w[..end][i];
    }
  }

  lemma {:induction false} KeyIs(z: Hash, w: seq<bv8>, p: nat, h: bv32)
    requires z.Ok() && p + 2 < |w| && z.Rolled(h, w[p], w[p + 1])
    ensures Index(z.Update(h, w[p + 2])) == KeyAt(z, w, p)
    ensures z.Rolled(z.Update(h, w[p + 2]), w[p + 1], w[p + 2])
  {
    hide Hash.Ok, Hash.Update, Hash.Rolled, Hash.Key, Index;
    Rolls(z, h, w[p], w[p + 1], w[p + 2]);
  }

  lemma {:induction false} ThreeSame(w: seq<bv8>, p: nat, q: nat)
    requires p < q && q + 2 < |w| && w[p] == w[q] && w[p + 1] == w[q + 1] && w[p + 2] == w[q + 2]
    ensures Same(w, p, q, 3)
  {
    forall j | q <= j < q + 3 ensures w[j] == w[j - (q - p)] {
      if j == q {
      } else if j == q + 1 {
      } else {
        assert j == q + 2;
      }
    }
  }

  lemma {:induction false} SameEnds(w: seq<bv8>, p: nat, q: nat, best: nat, n: nat)
    requires Same(w, p, q, n) && 1 <= best < n
    ensures w[p + best] == w[q + best] && w[p + best - 1] == w[q + best - 1] && w[p] == w[q] && w[p + 1] == w[q + 1]
  {
    assert w[q + best] == w[q + best - (q - p)] && w[q + best - 1] == w[q + best - 1 - (q - p)];
    assert w[q] == w[q - (q - p)] && w[q + 1] == w[q + 1 - (q - p)];
  }

  /** A difference at one of the two bytes that end a longer match, or at the first two, rules it out. */
  lemma {:induction false} EndsDiffer(w: seq<bv8>, p: nat, q: nat, best: nat)
    requires p < q && 1 <= best && q + best < |w|
    requires w[p + best] != w[q + best] || w[p + best - 1] != w[q + best - 1] || w[p] != w[q] || w[p + 1] != w[q + 1]
    ensures Beaten(w, p, q, MAX_MATCH, best)
  {
    hide Same;
    forall n: nat | Same(w, p, q, n)
      ensures n <= best
    {
      if n > best {
        SameEnds(w, p, q, best, n);
      }
    }
  }

  /** None of the strings at `seen` agrees in more than `r` bytes. */
  ghost predicate AllBeaten(w: seq<bv8>, seen: seq<nat>, q: nat, r: nat) {
    forall c :: c in seen ==> Beaten(w, c, q, MAX_MATCH, r)
  }

  lemma {:induction false} SameAlike(z: Hash, w: seq<bv8>, p: nat, q: nat)
    requires z.Ok() && Same(w, p, q, 3)
    ensures Alike(z, w, p, q)
  {
    hide Hash.Ok, Hash.Key, Index;
    assert w[q] == w[q - (q - p)] && w[q + 1] == w[q + 1 - (q - p)] && w[q + 2] == w[q + 2 - (q - p)];
  }

  lemma {:induction false} AllSameAlike(z: Hash, w: seq<bv8>, ins: set<nat>, q: nat)
    requires z.Ok()
    ensures forall p :: p in ins && Same(w, p, q, 3) ==> Alike(z, w, p, q)
  {
    hide Same, Alike, Hash.Ok;
    forall p | p in ins && Same(w, p, q, 3) ensures Alike(z, w, p, q) {
      SameAlike(z, w, p, q);
    }
  }

  lemma {:induction false} StillDescending(z: Hash, w: seq<bv8>, ins: set<nat>, before: set<nat>, v: seq<nat>, q: nat)
    requires Descending(z, w, ins, v, q) && forall x :: x in ins && x < q ==> x in before
    ensures Descending(z, w, before, v, q)
  {
    hide Alike;
  }

  lemma {:induction false} NoneBeaten(w: seq<bv8>, q: nat, r: nat)
    ensures AllBeaten(w, [], q, r)
  {
  }

  /** What is still ahead of the search at `cur`, with `n` strings to look at. */
  ghost predicate Onward(ahead: seq<nat>, links: seq<nat>, size: nat, limit: nat, cur: nat, n: nat) {
    |links| == size && cur < 2 * size && n >= 1 && ahead == [cur] + Walk(links, size, limit, links[Slot(cur, size)], n - 1)
  }

  lemma {:induction false} OnwardStep(ahead: seq<nat>, links: seq<nat>, size: nat, limit: nat, cur: nat, n: nat)
    requires Onward(ahead, links, size, limit, cur, n)
    ensures var next := links[Slot(cur, size)];
      && ahead == [cur] + ahead[1..]
      && (next <= limit || n == 1 ==> ahead[1..] == [])
      && (limit < next < 2 * size && n > 1 ==> Onward(ahead[1..], links, size, limit, next, n - 1))
  {
  }

  lemma {:induction false} BeatenMore(w: seq<bv8>, seen: seq<nat>, p: nat, q: nat, best: nat, r: nat)
    requires AllBeaten(w, seen, q, best) && best <= r && Beaten(w, p, q, MAX_MATCH, r)
    ensures AllBeaten(w, seen + [p], q, r)
  {
    hide Same;
    forall c | c in seen + [p]
      ensures Beaten(w, c, q, MAX_MATCH, r)
    {
      if c != p {
        assert Beaten(w, c, q, MAX_MATCH, best);
      }
    }
  }

  lemma {:induction false} BeatenWithin(w: seq<bv8>, seen: seq<nat>, q: nat, best: nat, most: nat)
    requires AllBeaten(w, seen, q, best)
    ensures forall c :: c in seen ==> Beaten(w, c, q, most, if best <= most then best else most)
  {
    hide Same;
    forall c | c in seen
      ensures Beaten(w, c, q, most, if best <= most then best else most)
    {
      assert Beaten(w, c, q, MAX_MATCH, best);
    }
  }

  lemma {:induction false} SameShorter(w: seq<bv8>, p: nat, q: nat, n: nat, m: nat)
    requires Same(w, p, q, n) && m <= n
    ensures Same(w, p, q, m)
  {
  }

  lemma {:induction false} ThirdSame(z: Hash, w: seq<bv8>, ins: set<nat>, p: nat, q: nat)
    requires z.Ok() && 0 < p < q && q + 2 < |w| && w[p] == w[q] && w[p + 1] == w[q + 1]
    requires Names(z, w, ins, p, KeyAt(z, w, q))
    ensures Same(w, p, q, 3)
  {
    hide Hash.Ok, KeyAt, Same;
    ThirdByteEqual(z, w, p, q);
    ThreeSame(w, p, q);
  }

  lemma {:induction false} NextInChain(z: Hash, w: seq<bv8>, size: nat, prev: seq<nat>, ins: set<nat>, top: nat, p: nat, k: nat)
    requires z.Ok() && |w| == 2 * size && |prev| == size && LinksName(z, w, size, prev, ins, top)
    requires 0 < p && p + size > top && Names(z, w, ins, p, k)
    ensures Names(z, w, ins, prev[Slot(p, size)], k) && prev[Slot(p, size)] < p
  {
    hide Hash.Ok, KeyAt;
  }

  lemma {:induction false} FreshSlid(z: Hash, w: seq<bv8>, size: nat, end: nat, head: seq<nat>, prev: seq<nat>,
      ins: set<nat>, top: nat, p: nat, n: nat)
    requires Chained(z, w, size, end, head, prev, ins, top) && n <= p && size <= p && Fresh(ins, top, p - n)
    ensures Fresh(SlidSet(ins, size), SlidEntry(top, size), p - size - if n > p - size then p - size else n)
  {
    if top < size {
      assert SlidSet(ins, size) == {};
    }
  }

  lemma {:induction false} HoldsMoved(w: seq<bv8>, v: seq<bv8>, stream: seq<bv8>, base: nat, end: nat, size: nat)
    requires Holds(w, stream, base, end) && Moved(w, v, size, end)
    ensures Holds(v, stream, base + size, end - size)
  {
    forall i | 0 <= i < end - size ensures v[i] == stream[base + size..][i] {
      assert w[..end][i + size] == stream[base..][i + size];
    }
    assert v[..end - size] == stream[base + size..];
  }

  lemma {:induction false} HoldsMore(w: seq<bv8>, v: seq<bv8>, stream: seq<bv8>, data: seq<bv8>, base: nat, end: nat)
    requires Holds(w, stream, base, end) && |v| == |w| && end + |data| <= |w|
    requires v[..end] == w[..end] && v[end..end + |data|] == data
    ensures Holds(v, stream + data, base, end + |data|)
  {
    assert v[..end + |data|] == v[..end] + v[end..end + |data|];
    assert (stream + data)[base..] == stream[base..] + data;
  }

  /** The same place of the input holds the same bytes, wherever the window is. */
  lemma {:induction false} HeldBytes(w: seq<bv8>, v: seq<bv8>, stream: seq<bv8>, b: nat, c: nat, p: nat, q: nat, n: nat)
    requires Holds(w, stream, b, p + n) && Holds(v, stream, c, q + n) && b + p == c + q
    ensures forall i :: p <= i < p + n ==> w[i] == v[i - p + q]
  {
    forall i | p <= i < p + n ensures w[i] == v[i - p + q] {
      assert w[..p + n][i] == stream[b..][i] == stream[c..][i - p + q] == v[..q + n][i - p + q];
    }
  }

  lemma {:induction false} WindowByte(w: seq<bv8>, stream: seq<bv8>, base: nat, end: nat, p: nat)
    requires Holds(w, stream, base, end) && p < end
    ensures end <= |w| && |stream| == base + end && w[p] == stream[base + p]
  {
    assert w[..end][p] == stream[base..][p];
  }

  lemma {:induction false} GenuineBounds(s: seq<bv8>, pos: nat, dist: int, len: nat)
    requires Genuine(s, pos, dist, len)
    ensures 3 <= len <= 258 && 1 <= dist <= 32768 && dist <= pos && pos + len <= |s|
  {
  }

  lemma {:induction false} Restarted(z: Hash, a: bv8, b: bv8)
    requires z.Ok()
    ensures z.Rolled(z.Update(Wide(a), b), a, b)
  {
  }

  lemma {:induction false} TracksLiteral(tokens: seq<Token>, s: seq<bv8>, pos: nat, mark: Mark)
    requires Tracks(tokens, s, pos, mark) && pos < |s|
    ensures Tracks(tokens + [Literal(s[pos])], s, pos + 1, mark)
  {
    hide Expand;
    ExpandLiteral(tokens, s, pos);
    var own, since := tokens[mark.tokens..], s[mark.place..];
    assert since[..pos - mark.place] == s[mark.place..pos] && since[..pos + 1 - mark.place] == s[mark.place..pos + 1];
    ExpandLiteral(own, since, pos - mark.place);
    assert (tokens + [Literal(s[pos])])[mark.tokens..] == own + [Literal(s[pos])];
  }

  lemma {:induction false} TracksMatch(tokens: seq<Token>, s: seq<bv8>, pos: nat, dist: int, len: nat, mark: Mark)
    requires Tracks(tokens, s, pos, mark) && Genuine(s, pos, dist, len) && mark.place <= pos - dist
    ensures 0 < dist && Tracks(tokens + [Match(dist, len)], s, pos + len, mark)
  {
    hide Expand;
    ExpandMatch(tokens, s, pos, dist, len);
    var own, since := tokens[mark.tokens..], s[mark.place..];
    GenuineSince(s, mark.place, pos, dist, len);
    assert since[..pos - mark.place] == s[mark.place..pos] && since[..pos + len - mark.place] == s[mark.place..pos + len];
    ExpandMatch(own, since, pos - mark.place, dist, len);
    assert (tokens + [Match(dist, len)])[mark.tokens..] == own + [Match(dist, len)];
  }

  lemma {:induction false} TracksAfresh(tokens: seq<Token>, s: seq<bv8>, mark: Mark)
    requires Tracks(tokens, s, |s|, mark)
    ensures Tracks(tokens, s, |s|, Mark(|tokens|, |s|))
  {
    assert tokens[|tokens|..] == [] && s[|s|..|s|] == [];
  }

  lemma {:induction false} GenuineSince(s: seq<bv8>, place: nat, pos: nat, dist: int, len: nat)
    requires Genuine(s, pos, dist, len) && place <= pos - dist
    ensures Genuine(s[place..], pos - place, dist, len)
  {
  }

  lemma {:induction false} HoldsLength(w: seq<bv8>, stream: seq<bv8>, base: nat, end: nat)
    requires Holds(w, stream, base, end)
    ensures |stream| == base + end
  {
  }

  lemma {:induction false} FoundIsHeld(w: seq<bv8>, stream: seq<bv8>, base: nat, start: nat, lookahead: nat, match': nat, len: nat, size: nat, mark: Mark)
    requires Holds(w, stream, base, start + lookahead) && Same(w, match', start, len) && start - match' <= size - MIN_LOOKAHEAD
    requires MIN_MATCH <= len <= lookahead && len <= MAX_MATCH && size <= 32768 && mark.place <= base
    ensures HeldMatch(stream, base + start, start - match', len, lookahead - 1, size, mark)
  {
    hide Holds, Same, Genuine;
    SameBefore(w, match', start, len);
    SameIsGenuine(w, stream, base, start + lookahead, match', start, len);
  }

  lemma {:induction false} SameBefore(w: seq<bv8>, p: nat, q: nat, n: nat)
    requires Same(w, p, q, n)
    ensures p < q
  {
  }

  /** One call of deflate(): input made available, and how to flush. */
  datatype Call = Call(input: seq<bv8>, flush: Flush)

  function Inputs(calls: seq<Call>): seq<bv8> {
    if calls == [] then [] else Inputs(calls[..|calls| - 1]) + calls[|calls| - 1].input
  }

  /** A call that deflate() refuses once the stream has been finished: any that has input or does not finish. */
  predicate TooLate(c: Call) {
    c.flush != Finish || c.input != []
  }

  lemma {:induction false} InputsNone(calls: seq<Call>)
    ensures Inputs(calls[..0]) == []
  {
  }

  lemma {:induction false} InputsNext(calls: seq<Call>, i: nat)
    requires i < |calls|
    ensures Inputs(calls[..i + 1]) == Inputs(calls[..i]) + calls[i].input
  {
    assert calls[..i + 1][..i] == calls[..i];
  }

  lemma {:induction false} InputsFrom(calls: seq<Call>, last: nat, taken: nat)
    requires last <= taken <= |calls|
    ensures |Inputs(calls[..last])| <= |Inputs(calls[..taken])|
    ensures Inputs(calls[..taken])[|Inputs(calls[..last])|..] == Inputs(calls[last..taken])
    decreases taken
  {
    if last < taken {
      var before := taken - 1;
      InputsFrom(calls, last, before);
      assert calls[..taken][..before] == calls[..before] && calls[last..taken][..before - last] == calls[last..before];
      assert Inputs(calls[..taken]) == Inputs(calls[..before]) + calls[before].input;
      assert Inputs(calls[last..taken]) == Inputs(calls[last..before]) + calls[before].input;
    } else {
      assert calls[last..taken] == [];
    }
  }

  /**
   * Over any run of calls, with any level, window, hash size and flushes: what the tokens expand to is a prefix of
   * the input, and whenever the parser says a block or the stream is done it is all the input so far. The stream
   * ends with the first call after which the parser says so; later calls are refused or have nothing to do. The
   * tokens since the last full flush, which came after `last` calls, expand by themselves to the input since. When
   * the output is never full, a flush always completes, finishing ends the stream, and otherwise no more than 262
   * bytes are kept back.
   */
  method Run(level: nat, wSize: nat, hash: Hash, filtered: bool, calls: seq<Call>)
    returns (tokens: seq<Token>, status: Status, taken: nat, refused: seq<bool>, ghost stalled: bool, ghost last: nat, ghost since: nat)
    requires 1 <= level <= 9 && 512 <= wSize <= 32768 && hash.Ok()
    ensures taken <= |calls| == |refused|
    ensures Expand(tokens).Some? && Expand(tokens).value <= Inputs(calls[..taken])
    ensures status != NeedMore ==> Expand(tokens) == Some(Inputs(calls[..taken]))
    ensures taken < |calls| ==> Ends(status)
    ensures Ends(status) ==> 0 < taken && calls[taken - 1].flush == Finish
    ensures forall i :: 0 <= i < |calls| ==> (refused[i] <==> i >= taken && TooLate(calls[i]))
    ensures InReach(tokens, wSize - 262)
    ensures status != NeedMore ==> last <= taken && since <= |tokens| && Expand(tokens[since..]) == Some(Inputs(calls[last..taken]))
    ensures !stalled ==> forall i :: 0 <= i < taken && calls[i].flush == FullFlush ==> i < last
    ensures !stalled && taken > 0 ==> status == match calls[taken - 1].flush case NoFlush => NeedMore case Finish => FinishDone case _ => BlockDone
    ensures !stalled ==> |Inputs(calls[..taken])| - |Expand(tokens).value| <= 262
  {
    hide Expand, State.Valid, State.Parsing, State.Complete, State.Unstalled, Inputs, TooLate, InReach;
    InputsNone(calls);
    var s := new State(level, wSize, hash, filtered);
    status, taken, refused, stalled, last := BlockDone, 0, [], false, 0;
    for i := 0 to |calls|
      invariant s.Valid() && s.Parsing() && s.size == wSize
      invariant fresh(s) && fresh(s.window) && fresh(s.head) && fresh(s.prev)
      invariant taken <= i == |refused| && (Ends(status) || taken == i)
      invariant s.stream + s.nextIn == Inputs(calls[..taken])
      invariant status != NeedMore ==> s.Complete()
      invariant Ends(status) ==> 0 < taken && calls[taken - 1].flush == Finish
      invariant forall k :: 0 <= k < i ==> (refused[k] <==> k >= taken && TooLate(calls[k]))
      invariant last <= taken && s.mark.place == |Inputs(calls[..last])|
      invariant !stalled ==> forall k :: 0 <= k < taken && calls[k].flush == FullFlush ==> k < last
      invariant !stalled && taken > 0 ==> s.Unstalled(calls[taken - 1].flush, status)
    {
      if Ends(status) {
        refused := refused + [TooLate(calls[i])];
      } else {
        InputsNext(calls, i);
        ghost var stall;
        status, stall := s.Serve(calls[i].input, calls[i].flush);
        taken, refused, stalled := i + 1, refused + [false], stalled || stall;
        if calls[i].flush == FullFlush && status == BlockDone {
          last := taken;
        }
      }
    }
    s.Prefix();
    tokens, since := s.tokens, s.mark.tokens;
    if status != NeedMore {
      s.CompleteExpands();
      s.NothingLeft();
      s.SinceMark();
      InputsFrom(calls, last, taken);
      assert s.stream + s.nextIn == s.stream;
    }
    if !stalled && taken > 0 {
      s.Behindhand(calls[taken - 1].flush, status);
      s.UnstalledStatus(calls[taken - 1].flush, status);
    }
  }

  lemma {:induction false} InReachMatch(tokens: seq<Token>, limit: int, dist: nat, len: nat)
    requires InReach(tokens, limit) && 1 <= dist <= limit && 3 <= len <= 258
    ensures InReach(tokens + [Match(dist, len)], limit)
  {
  }
}
