// LZ4MID_compress, the strategy of the two fastest levels of LZ4_compress_HC: one table of long hashes and one of
// short ones. Entries only have to lie behind the cursor, even where a match that was moved is entered under an
// index that no longer fits its position.

module Lz4HcMid {
  import opened Bytes
  import opened Stores
  import opened Lz4Format
  import opened Lz4Encoder
  import opened Lz4HcSearch
  import opened Lz4HcEncoder

  const HASH_SIZE := 0x4000

  /** LZ4MID_hash4Ptr. */
  function Hash4(src: seq<byte>, p: nat): (h: nat)
    requires p + 4 <= |src|
    ensures h < HASH_SIZE
  {
    Le32(src[p..]) * 2654435761 % 0x1_0000_0000 / 0x4_0000
  }

  /** LZ4MID_hash8Ptr: it hashes the lower 56 bits of a little-endian load. */
  function Hash8(src: seq<byte>, p: nat): (h: nat)
    requires p + 8 <= |src|
    ensures h < HASH_SIZE
  {
    var v := Le32(src[p..]) + 0x1_0000_0000 * Le32(src[p + 4..]);
    v * 0x100 % 0x1_0000_0000_0000_0000 * 58295818150454627 % 0x1_0000_0000_0000_0000 / 0x4_0000_0000_0000
  }

  /** The two halves of the hash table of the context. Every entry is below `bound`. */
  class Tables {
    const hash4: array<nat>
    const hash8: array<nat>

    ghost predicate Below(bound: nat)
      reads hash4, hash8
    {
      && hash4 != hash8 && hash4.Length == HASH_SIZE && hash8.Length == HASH_SIZE
      && (forall h :: 0 <= h < HASH_SIZE ==> hash4[h] < bound)
      && (forall h :: 0 <= h < HASH_SIZE ==> hash8[h] < bound)
    }

    constructor ()
      ensures Below(PREFIX) && fresh(hash4) && fresh(hash8)
    {
      hash4 := new nat[HASH_SIZE](_ => 0);
      hash8 := new nat[HASH_SIZE](_ => 0);
    }

    /** ADDPOS4. */
    method AddPos4(src: seq<byte>, p: nat, index: nat, ghost bound: nat)
      requires Below(bound) && p + 4 <= |src| && index < bound
      modifies hash4
      ensures Below(bound)
    {
      hide Hash4;
      hash4[Hash4(src, p)] := index;
    }

    /** ADDPOS8. */
    method AddPos8(src: seq<byte>, p: nat, index: nat, ghost bound: nat)
      requires Below(bound) && p + 8 <= |src| && index < bound
      modifies hash8
      ensures Below(bound)
    {
      hide Hash8;
      hash8[Hash8(src, p)] := index;
    }

    /** The start of a match is entered. */
    method AddStart(src: seq<byte>, ip: nat, index: nat, ghost bound: nat)
      requires Below(bound) && ip + 10 <= |src| && index + 2 < bound
      modifies hash4, hash8
      ensures Below(bound)
    {
      AddPos8(src, ip + 1, index + 1, bound);
      AddPos8(src, ip + 2, index + 2, bound);
      AddPos4(src, ip + 1, index + 1, bound);
    }

    /** The end of a match is entered, unless the end of the input is near. */
    method AddEnd(src: seq<byte>, ip: nat)
      requires Below(ip + PREFIX) && 4 <= ip && 8 <= |src|
      modifies hash4, hash8
      ensures Below(ip + PREFIX)
    {
      var endMatchIdx := ip + PREFIX;
      if endMatchIdx - 2 < |src| - 8 + PREFIX {
        if ip > 5 {
          AddPos8(src, ip - 5, endMatchIdx - 5, ip + PREFIX);
        }
        AddPos8(src, ip - 3, endMatchIdx - 3, ip + PREFIX);
        AddPos8(src, ip - 2, endMatchIdx - 2, ip + PREFIX);
        AddPos4(src, ip - 2, endMatchIdx - 2, ip + PREFIX);
        AddPos4(src, ip - 1, endMatchIdx - 1, ip + PREFIX);
      }
    }

    /** The candidate of a table entry, if it is near enough and in the prefix; 0 otherwise. */
    method TryIndex(src: seq<byte>, ip: nat, index: nat) returns (len: nat)
      requires ip + MFLIMIT <= |src| && index < ip + PREFIX
      ensures len >= MINMATCH ==> ip > 0 && Live(src, Found(ip, len, ip + PREFIX - index))
      ensures if PREFIX <= index && ip + PREFIX - index <= 65535 then NotMissed(src, ip, ip + PREFIX - index, len >= 4, Found(ip, len, ip + PREFIX - index))
        else len == 0
    {
      len := 0;
      if ip + PREFIX - index <= DISTANCE_MAX && index >= PREFIX {
        len := Count(src, ip, ip + PREFIX - index, |src| - LASTLITERALS);
        CountedAll(src, ip, ip + PREFIX - index, len);
      }
    }

    /** A match at `ip` or, behind a short one, at the next position. */
    method Search(src: seq<byte>, ip: nat) returns (found: bool, m: Found)
      requires Below(ip + PREFIX) && ip + MFLIMIT <= |src|
      modifies hash4, hash8
      ensures Below(ip + 2 + PREFIX)
      ensures !found ==> Below(ip + 1 + PREFIX)
      ensures found ==> ip > 0 && Live(src, m) && ip <= m.start <= ip + 1
      ensures !found ==> hash8[Hash8(src, ip)] == ip + PREFIX
      ensures var p := old(hash8[Hash8(src, ip)]);
        PREFIX <= p && ip + PREFIX - p <= 65535 ==> NotMissed(src, ip, ip + PREFIX - p, found && m.start == ip, m)
    {
      hide Hash4, Hash8, Live, Genuine;
      var ipIndex := ip + PREFIX;
      var h8 := Hash8(src, ip);
      var pos8 := hash8[h8];
      hash8[h8] := ipIndex;
      var len := TryIndex(src, ip, pos8);
      if len >= MINMATCH {
        return true, Found(ip, len, ipIndex - pos8);
      }
      var h4 := Hash4(src, ip);
      var pos4 := hash4[h4];
      hash4[h4] := ipIndex;
      len := TryIndex(src, ip, pos4);
      found, m := len >= MINMATCH, Found(ip, len, ipIndex - pos4);
      if found && ip + MFLIMIT < |src| {
        h8 := Hash8(src, ip + 1);
        pos8 := hash8[h8];
        var len2 := TryIndex(src, ip + 1, pos8);
        if len2 > len {
          hash8[h8] := ipIndex + 1;
          m := Found(ip + 1, len2, ipIndex + 1 - pos8);
        }
      }
    }
  }

  lemma {:induction false} CountedAll(src: seq<byte>, ip: nat, off: nat, len: nat)
    requires 1 <= off <= ip && ip + len + 5 <= |src| && (ip + len + 5 < |src| ==> src[ip + len] != src[ip + len - off])
    ensures NotMissed(src, ip, off, len >= 4, Found(ip, len, off))
  {
  }

  /** The match is extended over equal bytes before it, not beyond the anchor. */
  method CatchBack(src: seq<byte>, anchor: nat, m0: Found) returns (m: Found)
    requires Live(src, m0) && anchor <= m0.start
    ensures Live(src, m) && anchor <= m.start <= m0.start && m.End() == m0.End() && m.off == m0.off
  {
    m := m0;
    while m.start > anchor && m.start > m.off && src[m.start - 1] == src[m.start - 1 - m.off]
      invariant Live(src, m) && anchor <= m.start <= m0.start && m.End() == m0.End() && m.off == m0.off
    {
      m := Found(m.start - 1, m.len + 1, m.off);
    }
  }

  lemma {:induction false} UniformHashes(src: seq<byte>)
    requires Uniform(src) && |src| >= 9
    ensures Hash8(src, 0) == Hash8(src, 1)
  {
    assert Le32(src[0..]) == Le32(src[1..]) && Le32(src[4..]) == Le32(src[5..]);
  }

  lemma {:induction false} UniformSearched(src: seq<byte>, ip: nat, p: nat, found: bool, m: Found)
    requires Uniform(src) && |src| >= 13 && ip <= 1 && (found ==> ip > 0 && Live(src, m))
    requires ip == 1 && p == PREFIX ==> NotMissed(src, ip, 1, found && m.start == ip, m)
    ensures Hash8(src, 0) == Hash8(src, 1) && SequenceCost(1, |src| - 6) <= 5 + |src| / 255
    ensures if ip == 0 then !found else p == PREFIX ==> found && m.start == 1 && m.len == |src| - 6
  {
    hide SequenceCost, Uniform, Genuine, Hash8;
    UniformHashes(src);
    UniformMatch(src, 0, |src| - 5);
    UniformSize(|src|);
  }

  /** LZ4MID_compress. */
  method CompressMid(src: seq<byte>, dst: array<byte>, limited: bool, room: nat, ghost cap: nat) returns (r: nat)
    requires |src| <= cap && |src| <= MAX_INPUT_SIZE && room <= dst.Length && (!limited ==> Budget(|src|) + 16 <= room)
    modifies dst
    ensures r <= room && (r == 0 ==> limited)
    ensures r > 0 ==> Expand(dst[..r], []) == Some(src) && Strict(dst[..r], 0, cap)
    ensures Uniform(src) && |src| >= 13 && room >= 11 + |src| / 255 ==> 0 < r <= 11 + |src| / 255
    ensures SameFrom(dst[..], old(dst[..]), room)
  {
    hide Achieved, Expand, Strict, Live, Uniform, SequenceCost, Hash8, Genuine, NotMissed;
    var op: nat, anchor: nat := 0, 0;
    ghost var easy := Uniform(src) && room >= 11 + |src| / 255;
    NothingAchieved(cap);
    assert dst[..0] == [] && src[..0] == [];
    if |src| >= MIN_LENGTH {
      var tables := new Tables();
      var ip := 0;
      while ip + MFLIMIT <= |src|
        invariant anchor <= ip && tables.Below(ip + PREFIX) && fresh(tables) && fresh(tables.hash4) && fresh(tables.hash8)
        invariant anchor + LASTLITERALS <= |src| && Fits(limited, op, anchor, |src|, room) && Achieved(dst[..op], src[..anchor], cap)
        invariant easy ==>
          if ip <= 1 then op == 0 && anchor == 0 && (ip == 1 ==> tables.hash8[Hash8(src, 0)] == PREFIX) else anchor == |src| - 5 && op <= 5 + |src| / 255
        invariant SameFrom(dst[..], old(dst[..]), room)
        decreases |src| - ip
      {
        ghost var p := tables.hash8[Hash8(src, ip)];
        var found, m := tables.Search(src, ip);
        if easy && ip <= 1 {
          UniformSearched(src, ip, p, found, m);
        }
        if !found {
          ip := ip + 1 + (ip - anchor) / 512;
          continue;
        }
        LiveFacts(src, m);
        var ipIndex := ip + PREFIX;
        m := CatchBack(src, anchor, m);
        LiveFacts(src, m);
        tables.AddStart(src, m.start, ipIndex, m.End() + PREFIX);
        var ok;
        ok, op := EncodeSequence(src, dst, op, anchor, m, limited, room, cap);
        if !ok {
          return 0;
        }
        ip := m.End();
        anchor := ip;
        tables.AddEnd(src, ip);
      }
    }
    r := EncodeLastLiterals(src, dst, op, anchor, limited, room, cap);
  }
}
