// LZ4HC_Insert and LZ4HC_InsertAndGetWiderMatch in prefix mode: every match the search reports is
// real, whether its bytes were compared or its length was concluded from a repeated pattern.

module Lz4HcSearch {
  import opened Bytes
  import opened Lz4Format
  import opened Lz4Encoder
  import opened Lz4HcPatterns

  /** The index of the first byte on a fresh state; the chains store differences of indices. */
  const PREFIX := 0x1_0000

  function HashPtr(src: seq<byte>, p: nat): (h: nat)
    requires p + 4 <= |src|
    ensures h < 0x8000
  {
    Le32(src[p..]) * 2654435761 % 0x1_0000_0000 / 0x2_0000
  }

  /** LZ4HC_match_t; `back` counts how far the match starts before the searched position. */
  datatype Best = Best(len: nat, off: nat, back: nat)

  /** Where a search may find matches: around `ip`, not before `low`, not beyond `high`. */
  ghost predicate Setting(src: seq<byte>, ip: nat, low: nat, high: nat, longest: nat) {
    low <= ip && ip + MINMATCH <= high < |src| && low + longest <= high && ip - low < longest
  }

  /** A match longer than asked for: it covers four bytes from `ip` on, stays inside the limits and repeats earlier bytes. */
  ghost predicate Wider(src: seq<byte>, ip: nat, low: nat, high: nat, b: Best) {
    && b.back <= ip - low && ip + MINMATCH <= ip - b.back + b.len <= high <= |src|
    && Genuine(src, ip - b.back, ip - b.back + b.len, b.off)
  }

  /** The search result: nothing longer than `longest`, or a wider match. */
  ghost predicate Sound(src: seq<byte>, ip: nat, low: nat, high: nat, longest: nat, b: Best) {
    b == Best(longest, 0, 0) || (b.len > longest && low <= ip && Wider(src, ip, low, high, b))
  }

  /** The lowest index a match may have. */
  function LowestIndex(ipIndex: nat): (l: nat)
    requires PREFIX <= ipIndex
    ensures PREFIX <= l <= ipIndex && ipIndex - l <= DISTANCE_MAX
  {
    if PREFIX + (DISTANCE_MAX + 1) > ipIndex then PREFIX else ipIndex - DISTANCE_MAX
  }

  /** LZ4HC_protectDictEnd, in 32-bit arithmetic; without a dictionary it never refuses. */
  predicate ProtectDictEnd(dictLimit: nat, matchIndex: nat) {
    (dictLimit - 1 - matchIndex) % 0x1_0000_0000 >= 3
  }

  lemma {:induction false} PrefixNotProtected(matchIndex: nat)
    requires PREFIX <= matchIndex < PREFIX + MAX_INPUT_SIZE
    ensures ProtectDictEnd(PREFIX, matchIndex)
  {
    assert (PREFIX - 1 - matchIndex) % 0x1_0000_0000 == PREFIX - 1 - matchIndex + 0x1_0000_0000;
  }

  // ----- steps of the search that do not touch the tables -----

  /** No match at distance `off` around `ip` is longer than `len`. */
  ghost predicate NoneLonger(src: seq<byte>, ip: nat, low: nat, high: nat, off: nat, len: nat) {
    forall s: nat, e: nat :: low <= s <= ip && ip + 4 <= e <= high && Genuine(src, s, e, off) ==> e - s <= len
  }

  /** A longer match covers the two bytes that the filter compares. */
  lemma {:induction false} FilterRejects(src: seq<byte>, ip: nat, low: nat, high: nat, longest: nat, len: nat, mat: nat)
    requires Setting(src, ip, low, high, longest) && longest <= len && mat < ip && low + len < |src|
    requires var at, off := low + len - 1, ip - mat; off <= at && Le16(src[at..]) != Le16(src[at - off..])
    ensures NoneLonger(src, ip, low, high, ip - mat, len)
  {
    var at, off := low + len - 1, ip - mat;
    forall s: nat, e: nat | low <= s <= ip && ip + 4 <= e <= high && Genuine(src, s, e, off)
      ensures e - s <= len
    {
      if e - s > len {
        GenuineAt(src, s, e, off, at);
        GenuineAt(src, s, e, off, at + 1);
      }
    }
  }

  lemma {:induction false} FourReject(src: seq<byte>, ip: nat, low: nat, high: nat, mat: nat, len: nat)
    requires mat < ip && ip + 4 <= high <= |src| && Le32(src[mat..]) != Le32(src[ip..])
    ensures NoneLonger(src, ip, low, high, ip - mat, len)
  {
    hide Le32;
    EqualLoads(src, mat, ip);
    var off := ip - mat;
    forall s: nat, e: nat | low <= s <= ip && ip + 4 <= e <= high
      ensures !Genuine(src, s, e, off)
    {
      if Genuine(src, s, e, off) {
        GenuineFour(src, s, e, ip, mat);
      }
    }
  }

  lemma {:induction false} GenuineAt(src: seq<byte>, s: nat, e: nat, off: nat, i: nat)
    requires Genuine(src, s, e, off) && s <= i < e
    ensures src[i] == src[i - off]
  {
  }

  lemma {:induction false} GenuineFour(src: seq<byte>, s: nat, e: nat, ip: nat, mat: nat)
    requires mat < ip && Genuine(src, s, e, ip - mat) && s <= ip && ip + 4 <= e
    ensures src[mat..mat + 4] == src[ip..ip + 4]
  {
    var four, here := src[mat..mat + 4], src[ip..ip + 4];
    forall i | 0 <= i < 4 ensures four[i] == here[i] {
      GenuineAt(src, s, e, ip - mat, ip + i);
    }
  }

  /** Extended until the bytes differ on both sides, a match is the longest at its distance. */
  lemma {:induction false} ExtendedMost(src: seq<byte>, ip: nat, low: nat, high: nat, mat: nat, back: nat, n: nat)
    requires mat < ip && back <= ip - low && back <= mat && ip + 4 + n <= high <= |src|
    requires back < ip - low && back < mat ==> src[ip - back - 1] != src[mat - back - 1]
    requires ip + 4 + n < high ==> src[ip + 4 + n] != src[ip + 4 + n - (ip - mat)]
    ensures NoneLonger(src, ip, low, high, ip - mat, 4 + n + back)
  {
  }

  /** One candidate: the quick two-byte filter, the four-byte comparison, both extensions. The longest match at its
      distance is taken if it is longer than what there is. */
  method TryCandidate(src: seq<byte>, ip: nat, low: nat, high: nat, ghost longest0: nat, best0: Best, mat: nat, favorDecSpeed: bool)
    returns (best: Best, matchLength: nat)
    requires Setting(src, ip, low, high, longest0) && Sound(src, ip, low, high, longest0, best0)
    requires mat < ip && ip - mat <= DISTANCE_MAX
    ensures Sound(src, ip, low, high, longest0, best)
    ensures best == best0 || (best.len == matchLength > best0.len && best.off == ip - mat)
    ensures favorDecSpeed && ip - mat < 8 ==> best == best0
    ensures !favorDecSpeed || ip - mat >= 8 ==> NoneLonger(src, ip, low, high, ip - mat, best.len)
  {
    hide Le32, Le16, NoneLonger;
    best, matchLength := best0, 0;
    if favorDecSpeed && ip - mat < 8 {
      return;
    }
    var lookBack := ip - low;
    if Le16(src[low + best.len - 1..]) == Le16(src[mat - lookBack + best.len - 1..]) {
      if Le32(src[mat..]) == Le32(src[ip..]) {
        FourEqual(src, ip, mat);
        var back := 0;
        if lookBack > 0 {
          back := CountBack(src, ip, mat, low);
        }
        var n := Count(src, ip + MINMATCH, ip - mat, high);
        matchLength := MINMATCH + n + back;
        ExtendedMost(src, ip, low, high, mat, back, n);
        NoneLongerStill(src, ip, low, high, ip - mat, matchLength, best.len);
        if matchLength > best.len {
          best := Best(matchLength, ip - mat, back);
        }
      } else {
        FourReject(src, ip, low, high, mat, best.len);
      }
    } else {
      FilterRejects(src, ip, low, high, longest0, best.len, mat);
    }
  }

  lemma {:induction false} NoneLongerStill(src: seq<byte>, ip: nat, low: nat, high: nat, off: nat, len: nat, more: nat)
    ensures len <= more && NoneLonger(src, ip, low, high, off, len) ==> NoneLonger(src, ip, low, high, off, more)
  {
    hide Genuine;
  }

  /** Whether the repeated-pattern analysis applies to the searched position. */
  datatype Repeat = Untested | NotRepeated | Confirmed

  /** All bytes from `lo` up to `hi` are the same byte. */
  ghost predicate AllSame(s: seq<byte>, lo: nat, hi: nat, c: byte)
    requires hi <= |s|
  {
    forall i :: lo <= i < hi ==> s[i] == c
  }

  /** The pattern test on the 32-bit load: low half equals high half and lowest byte equals highest. */
  predicate IsRepeat(p: seq<byte>)
    requires |p| == 4
  {
    p[0] == p[2] && p[1] == p[3] && p[0] == p[3]
  }

  lemma {:induction false} RepeatAllSame(s: seq<byte>, lo: nat, hi: nat, origin: int, p: seq<byte>)
    requires |p| == 4 && hi <= |s| && IsRepeat(p) && Cycles(s, lo, hi, origin, p)
    ensures AllSame(s, lo, hi, p[0])
  {
  }

  /** What is remembered about a repeated pattern at `ip`. */
  ghost predicate Remembered(src: seq<byte>, ip: nat, high: nat, repeat: Repeat, srcLength: nat)
    requires ip + 4 <= high <= |src|
  {
    repeat.Confirmed? ==> 4 <= srcLength && ip + srcLength <= high && IsRepeat(src[ip..ip + 4]) && AllSame(src, ip, ip + srcLength, src[ip])
  }

  /** Measures the repeated pattern at `ip` once. */
  method TestRepeat(src: seq<byte>, ip: nat, high: nat, repeat0: Repeat, srcLength0: nat) returns (repeat: Repeat, srcLength: nat)
    requires ip + 4 <= high <= |src| && Remembered(src, ip, high, repeat0, srcLength0)
    ensures Remembered(src, ip, high, repeat, srcLength)
  {
    repeat, srcLength := repeat0, srcLength0;
    if repeat.Untested? {
      var p := src[ip..ip + 4];
      if IsRepeat(p) {
        var n := CountPattern(src, ip + 4, high, p);
        repeat, srcLength := Confirmed, n + 4;
        FourThenMore(src, ip, ip + srcLength, ip + 4, p);
      } else {
        repeat := NotRepeated;
      }
    }
  }

  lemma {:induction false} FourThenMore(s: seq<byte>, lo: nat, hi: nat, origin: int, p: seq<byte>)
    requires lo + 4 <= hi <= |s| && p == s[lo..lo + 4] && IsRepeat(p) && Cycles(s, lo + 4, hi, origin, p)
    ensures AllSame(s, lo, hi, p[0])
  {
    RepeatAllSame(s, lo + 4, hi, origin, p);
    forall i | lo <= i < lo + 4
      ensures s[i] == p[0]
    {
      assert s[i] == p[i - lo];
    }
  }

  /** Two stretches of the same byte make a match of the shorter length. */
  lemma {:induction false} PatternMatch(src: seq<byte>, ip: nat, len: nat, mat: nat, segment: nat, c: byte)
    requires mat < ip && ip - mat <= DISTANCE_MAX && len <= segment && ip + len <= |src| && mat + segment <= |src|
    requires AllSame(src, ip, ip + len, c) && AllSame(src, mat, mat + segment, c)
    ensures Genuine(src, ip, ip + len, ip - mat)
  {
  }

  /** The outcome of the pattern analysis at a candidate. */
  datatype Step = Follow | Jump(index: nat) | NextPattern(index: nat)

  /** Pattern analysis of the candidate just before the current one: measure the segment it lies in, then
      aim at the place where the whole source pattern fits, or take the start of the segment. The indices it
      moves to stay in the prefix and within the distance, so the source's fallbacks for the rest never apply. */
  method AnalysePattern(src: seq<byte>, ip: nat, low: nat, high: nat, ghost longest0: nat, best0: Best, candidate: nat, srcLength: nat)
    returns (step: Step, best: Best)
    requires Setting(src, ip, low, high, longest0) && Sound(src, ip, low, high, longest0, best0) && |src| <= MAX_INPUT_SIZE
    requires Remembered(src, ip, high, Confirmed, srcLength)
    requires LowestIndex(ip + PREFIX) <= candidate < ip + PREFIX
    ensures Sound(src, ip, low, high, longest0, best) && best0.len <= best.len
    ensures step.Jump? || step.NextPattern? ==> LowestIndex(ip + PREFIX) <= step.index < ip + PREFIX
  {
    hide Genuine, Sound, Remembered, ProtectDictEnd;
    best, step := best0, Follow;
    var lowest := LowestIndex(ip + PREFIX);
    PrefixNotProtected(candidate);
    if !ProtectDictEnd(PREFIX, candidate) || !MatchesPattern(src, candidate - PREFIX, ip) {
      return;
    }
    var forward, back := MeasureSegment(src, ip, high, candidate - PREFIX, srcLength);
    var backLength := candidate - (if candidate - back > lowest then candidate - back else lowest);
    var segment := backLength + forward;
    if segment >= srcLength && forward <= srcLength {
      step := Jump(candidate + forward - srcLength);
    } else {
      step := Jump(candidate - backLength);
      if ip == low {
        var maxML := if segment < srcLength then segment else srcLength;
        best := TakePattern(src, ip, high, longest0, best0, candidate - backLength - PREFIX, segment, srcLength, maxML);
        step := NextPattern(candidate - backLength);
      }
    }
    PrefixNotProtected(step.index);
  }

  predicate MatchesPattern(src: seq<byte>, mat: nat, ip: nat)
    requires mat < ip && ip + 4 <= |src|
  {
    Le32(src[mat..]) == Le32(src[ip..])
  }

  /** The stretch of the repeated byte around a place where the pattern occurs. */
  method MeasureSegment(src: seq<byte>, ip: nat, high: nat, mat: nat, ghost srcLength: nat) returns (forward: nat, back: nat)
    requires mat < ip && ip + 4 <= high < |src| && Remembered(src, ip, high, Confirmed, srcLength) && MatchesPattern(src, mat, ip)
    ensures back <= mat && 4 <= forward && mat + forward <= high
    ensures AllSame(src, mat - back, mat + forward, src[ip])
  {
    hide Le32, Cycles, AllSame;
    var p := src[ip..ip + 4];
    Le32Injective(src[mat..], src[ip..]);
    assert src[mat..mat + 4] == src[mat..][..4] == src[ip..][..4] == p;
    forward := CountPattern(src, mat + 4, high, p);
    forward := forward + 4;
    FourThenMore(src, mat, mat + forward, mat + 4, p);
    back := ReverseCountPattern(src, mat, 0, p);
    RepeatAllSame(src, mat - back, mat, mat, p);
    JoinSame(src, mat - back, mat, mat + forward, p[0]);
  }

  lemma {:induction false} JoinSame(s: seq<byte>, lo: nat, mid: nat, hi: nat, c: byte)
    requires lo <= mid <= hi <= |s| && AllSame(s, lo, mid, c) && AllSame(s, mid, hi, c)
    ensures AllSame(s, lo, hi, c)
  {
  }

  /** The length concluded without comparing bytes. */
  method TakePattern(src: seq<byte>, ip: nat, high: nat, ghost longest0: nat, best0: Best, mat: nat, segment: nat, ghost srcLength: nat, maxML: nat)
    returns (best: Best)
    requires Setting(src, ip, ip, high, longest0) && Sound(src, ip, ip, high, longest0, best0)
    requires Remembered(src, ip, high, Confirmed, srcLength) && mat < ip && ip - mat <= DISTANCE_MAX
    requires 4 <= segment && mat + segment <= high && AllSame(src, mat, mat + segment, src[ip]) && maxML == (if segment < srcLength then segment else srcLength)
    ensures Sound(src, ip, ip, high, longest0, best)
    ensures if best0.len < maxML then best == Best(maxML, ip - mat, 0) else best == best0
  {
    best := best0;
    if best.len < maxML {
      PatternMatch(src, ip, maxML, mat, segment, src[ip]);
      best := Best(maxML, ip - mat, 0);
    }
  }

  // ----- the tables -----

  /** The position with this index has the hash `h`. */
  ghost predicate Enters(src: seq<byte>, index: nat, h: nat) {
    PREFIX <= index && index - PREFIX + 4 <= |src| && HashPtr(src, index - PREFIX) == h
  }

  /** LZ4HC_CCtx_internal without a dictionary: hash heads, 16-bit chain steps and the next position to enter. */
  class Context {
    const hashTable: array<nat>
    const chainTable: array<nat>
    var nextToUpdate: nat

    /** Heads lie before the next position; steps fit 16 bits, so following one from the prefix cannot underflow. */
    ghost predicate Valid()
      reads this, hashTable, chainTable
    {
      && hashTable != chainTable && hashTable.Length == 0x8000 && chainTable.Length == 0x1_0000
      && PREFIX <= nextToUpdate
      && (forall h :: 0 <= h < 0x8000 ==> hashTable[h] < nextToUpdate)
      && (forall c :: 0 <= c < 0x1_0000 ==> chainTable[c] <= DISTANCE_MAX)
    }

    constructor ()
      ensures Valid() && nextToUpdate == PREFIX && fresh(hashTable) && fresh(chainTable)
    {
      hashTable := new nat[0x8000](_ => 0);
      chainTable := new nat[0x1_0000](_ => 0);
      nextToUpdate := PREFIX;
    }

    /** DELTANEXTU16. */
    function Delta(index: nat): (d: nat)
      requires Valid()
      reads this, hashTable, chainTable
      ensures d <= DISTANCE_MAX
    {
      chainTable[index % 0x1_0000]
    }

    /** LZ4HC_Insert: every position before `ip` is entered, so that a head is the latest of its hash. */
    method Insert(src: seq<byte>, ip: nat)
      requires Valid() && nextToUpdate <= ip + PREFIX && ip + MINMATCH <= |src|
      modifies this, hashTable, chainTable
      ensures Valid() && nextToUpdate == ip + PREFIX
      ensures forall p: nat :: old(nextToUpdate) <= p + PREFIX < ip + PREFIX ==> p + PREFIX <= hashTable[HashPtr(src, p)]
      ensures forall h :: 0 <= h < 0x8000 && hashTable[h] != old(hashTable[h]) ==> Enters(src, hashTable[h], h)
    {
      hide HashPtr;
      while nextToUpdate < ip + PREFIX
        invariant Valid() && old(nextToUpdate) <= nextToUpdate <= ip + PREFIX
        invariant forall p: nat :: old(nextToUpdate) <= p + PREFIX < nextToUpdate ==> p + PREFIX <= hashTable[HashPtr(src, p)]
        invariant forall h :: 0 <= h < 0x8000 && hashTable[h] != old(hashTable[h]) ==> Enters(src, hashTable[h], h)
      {
        var idx := nextToUpdate;
        var h := HashPtr(src, idx - PREFIX);
        var delta := idx - hashTable[h];
        chainTable[idx % 0x1_0000] := if delta > DISTANCE_MAX then DISTANCE_MAX else delta;
        hashTable[h] := idx;
        nextToUpdate := idx + 1;
      }
    }

    /** Chain swapping: looks along the match for the place whose chain makes the largest step. */
    method BetterChain(matchIndex: nat, longest: nat) returns (distance: nat, chainPos: nat)
      requires Valid()
      ensures 1 <= distance <= DISTANCE_MAX
    {
      distance, chainPos := 1, 0;
      var pos, step, accel := 0, 1, 16;
      while pos + MINMATCH <= longest
        invariant 1 <= distance <= DISTANCE_MAX && step >= 1 && accel >= 16
        decreases longest - pos
      {
        var candidateDist := Delta(matchIndex + pos);
        step, accel := accel / 16, accel + 1;
        if candidateDist > distance {
          distance, chainPos, accel := candidateDist, pos, 16;
        }
        pos := pos + step;
      }
    }

    /** The pattern analysis at the current candidate, when it applies. */
    method Analyse(src: seq<byte>, ip: nat, low: nat, high: nat, ghost longest0: nat, best0: Best, matchIndex: nat, matchChainPos: nat,
                   repeat0: Repeat, srcLength0: nat)
      returns (step: Step, best: Best, repeat: Repeat, srcLength: nat)
      requires Valid() && Setting(src, ip, low, high, longest0) && Sound(src, ip, low, high, longest0, best0) && |src| <= MAX_INPUT_SIZE
      requires Remembered(src, ip, high, repeat0, srcLength0) && LowestIndex(ip + PREFIX) <= matchIndex < ip + PREFIX
      ensures Sound(src, ip, low, high, longest0, best) && Remembered(src, ip, high, repeat, srcLength) && best0.len <= best.len
      ensures step.Jump? || step.NextPattern? ==> LowestIndex(ip + PREFIX) <= step.index < ip + PREFIX
    {
      hide Sound, Remembered;
      step, best, repeat, srcLength := Follow, best0, repeat0, srcLength0;
      if Delta(matchIndex) == 1 && matchChainPos == 0 {
        repeat, srcLength := TestRepeat(src, ip, high, repeat, srcLength);
        if repeat.Confirmed? && matchIndex - 1 >= LowestIndex(ip + PREFIX) {
          step, best := AnalysePattern(src, ip, low, high, longest0, best, matchIndex - 1, srcLength);
        }
      }
    }

    /** Where the search goes from a candidate. */
    method NextIndex(step: Step, matchIndex: nat, matchChainPos: nat) returns (next: nat)
      requires Valid() && PREFIX <= matchIndex && (step.Jump? || step.NextPattern? ==> PREFIX <= step.index)
      ensures step.Jump? ==> next == step.index
      ensures step.NextPattern? ==> next <= step.index
      ensures step.Follow? ==> next <= matchIndex
    {
      match step {
        case Jump(index) => next := index;
        case NextPattern(index) => next := index - Delta(index);
        case Follow => next := matchIndex - Delta(matchIndex + matchChainPos);
      }
    }

    /** LZ4HC_InsertAndGetWiderMatch, without a dictionary. */
    method InsertAndGetWiderMatch(src: seq<byte>, ip: nat, low: nat, high: nat, longest: nat, maxNbAttempts: nat,
                                  patternAnalysis: bool, chainSwap: bool, favorDecSpeed: bool)
      returns (best: Best)
      requires Valid() && nextToUpdate <= ip + PREFIX && Setting(src, ip, low, high, longest) && |src| <= MAX_INPUT_SIZE
      requires chainSwap ==> ip == low
      modifies this, hashTable, chainTable
      ensures Valid() && nextToUpdate == ip + PREFIX
      ensures Sound(src, ip, low, high, longest, best) && longest <= best.len
      ensures forall p: nat :: old(nextToUpdate) <= p + PREFIX < ip + PREFIX ==> p + PREFIX <= hashTable[HashPtr(src, p)]
      ensures var m := hashTable[HashPtr(src, ip)];
        LowestIndex(ip + PREFIX) <= m && maxNbAttempts > 0 && (!favorDecSpeed || ip + PREFIX - m >= 8) ==>
          NoneLonger(src, ip, low, high, ip + PREFIX - m, best.len)
    {
      hide Sound, Remembered, HashPtr, NoneLonger;
      Insert(src, ip);
      best := Best(longest, 0, 0);
      NothingFound(src, ip, low, high, longest);
      var matchIndex: nat, nbAttempts, matchChainPos: nat := hashTable[HashPtr(src, ip)], maxNbAttempts, 0;
      var repeat: Repeat, srcLength: nat := Untested, 0;
      ghost var first, heads := matchIndex, hashTable[..];
      while matchIndex >= LowestIndex(ip + PREFIX) && nbAttempts > 0
        invariant Valid() && nextToUpdate == ip + PREFIX && matchIndex < ip + PREFIX
        invariant Sound(src, ip, low, high, longest, best) && Remembered(src, ip, high, repeat, srcLength) && longest <= best.len
        invariant hashTable[..] == heads && first == heads[HashPtr(src, ip)]
        invariant forall p: nat :: old(nextToUpdate) <= p + PREFIX < ip + PREFIX ==> p + PREFIX <= heads[HashPtr(src, p)]
        invariant if nbAttempts == maxNbAttempts then matchIndex == first
          else !favorDecSpeed || ip + PREFIX - first >= 8 ==> NoneLonger(src, ip, low, high, ip + PREFIX - first, best.len)
        decreases nbAttempts
      {
        nbAttempts := nbAttempts - 1;
        var matchLength: nat;
        ghost var before := best.len;
        best, matchLength := TryCandidate(src, ip, low, high, longest, best, matchIndex - PREFIX, favorDecSpeed);
        NoneLongerStill(src, ip, low, high, ip + PREFIX - first, before, best.len);
        if chainSwap && matchLength == best.len && matchIndex + best.len <= ip + PREFIX {
          var distance: nat, pos: nat := BetterChain(matchIndex, best.len);
          matchChainPos := if distance > 1 then pos else matchChainPos;
          if distance > 1 {
            matchIndex := matchIndex - distance;
            continue;
          }
        }
        var step: Step := Follow;
        if patternAnalysis {
          before := best.len;
          step, best, repeat, srcLength := Analyse(src, ip, low, high, longest, best, matchIndex, matchChainPos, repeat, srcLength);
          NoneLongerStill(src, ip, low, high, ip + PREFIX - first, before, best.len);
        }
        matchIndex := NextIndex(step, matchIndex, matchChainPos);
      }
    }
  }

  lemma {:induction false} NothingFound(src: seq<byte>, ip: nat, low: nat, high: nat, longest: nat)
    requires Setting(src, ip, low, high, longest)
    ensures Sound(src, ip, low, high, longest, Best(longest, 0, 0)) && Remembered(src, ip, high, Untested, 0)
  {
  }
}
