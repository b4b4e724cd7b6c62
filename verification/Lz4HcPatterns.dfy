// The byte-counting kernels of lz4hc.c: matches extended backwards, and runs of a repeated
// four-byte pattern counted in both directions.

module Lz4HcPatterns {
  import opened Bytes
  import Lz4Words

  /** LZ4HC_countBack: how many bytes before `ip` and `mat` agree, capped by `iMin` and the start of the
      buffer; four bytes per step. Exact. */
  method CountBack(src: seq<byte>, ip: nat, mat: nat, iMin: nat) returns (back: nat)
    requires mat < ip <= |src| && iMin <= ip
    ensures back <= ip - iMin && back <= mat
    ensures forall i :: ip - back <= i < ip ==> src[i] == src[i - (ip - mat)]
    ensures back < ip - iMin && back < mat ==> src[ip - back - 1] != src[mat - back - 1]
  {
    var most := if ip - iMin < mat then ip - iMin else mat;
    back := 0;
    while most - back > 3
      invariant back <= most && forall i :: ip - back <= i < ip ==> src[i] == src[i - (ip - mat)]
    {
      var same, n := CompareBack(src, ip - back, mat - back);
      if !same {
        back := back + n;
        return;
      }
      back := back + 4;
    }
    while back < most && src[ip - back - 1] == src[mat - back - 1]
      invariant back <= most && forall i :: ip - back <= i < ip ==> src[i] == src[i - (ip - mat)]
    {
      back := back + 1;
    }
  }

  method CompareBack(src: seq<byte>, ip: nat, mat: nat) returns (same: bool, n: nat)
    requires 4 <= mat < ip <= |src|
    ensures !same ==> n < 4 && src[ip - n - 1] != src[mat - n - 1]
    ensures forall i :: ip - (if same then 4 else n) <= i < ip ==> src[i] == src[i - (ip - mat)]
  {
    ghost var s, t := src[ip - 4..ip], src[mat - 4..mat];
    same, n := Lz4Words.CommonBytesBack(src[ip - 4..ip], src[mat - 4..mat]);
    forall i | ip - (if same then 4 else n) <= i < ip
      ensures src[i] == src[i - (ip - mat)]
    {
      assert s[i - (ip - 4)] == t[i - (ip - 4)];
    }
    if !same {
      assert s[3 - n] == src[ip - n - 1] && t[3 - n] == src[mat - n - 1];
    }
  }

  /** The byte a repeated pattern has at a place counted from where it starts; places before it are negative. */
  function At(p: seq<byte>, k: int): byte
    requires |p| == 4
  {
    p[k % 4]
  }

  lemma {:induction false} AtPeriod(p: seq<byte>, k: int, d: int)
    requires |p| == 4 && d % 4 == 0
    ensures At(p, k + d) == At(p, k)
  {
    assert (k + d) % 4 == k % 4;
  }

  /** From `lo` up to `hi` the bytes follow the pattern aligned at `origin`. */
  ghost predicate Cycles(s: seq<byte>, lo: nat, hi: nat, origin: int, p: seq<byte>)
    requires |p| == 4 && hi <= |s|
  {
    forall i :: lo <= i < hi ==> s[i] == At(p, i - origin)
  }

  /** An alignment may be moved by whole patterns. */
  lemma {:induction false} Realign(s: seq<byte>, lo: nat, hi: nat, origin: int, origin': int, p: seq<byte>)
    requires |p| == 4 && hi <= |s| && (origin - origin') % 4 == 0 && Cycles(s, lo, hi, origin, p)
    ensures Cycles(s, lo, hi, origin', p)
  {
    hide At;
    forall i | lo <= i < hi
      ensures s[i] == At(p, i - origin')
    {
      AtPeriod(p, i - origin, origin - origin');
      assert i - origin + (origin - origin') == i - origin';
    }
  }

  lemma {:induction false} DoubledAt(p: seq<byte>, k: nat)
    requires |p| == 4 && k < 8
    ensures (p + p)[k] == At(p, k)
  {
  }

  /** LZ4HC_countPattern: eight bytes per step, then byte by byte. Exact. */
  method CountPattern(src: seq<byte>, start: nat, iEnd: nat, p: seq<byte>) returns (n: nat)
    requires |p| == 4 && start <= iEnd <= |src|
    ensures start + n <= iEnd && Cycles(src, start, start + n, start, p)
    ensures start + n < iEnd ==> src[start + n] != At(p, n)
  {
    hide At;
    var ip, pattern := start, p + p;
    while ip + 7 < iEnd
      invariant start <= ip <= iEnd && (ip - start) % 4 == 0 && Cycles(src, start, ip, start, p)
    {
      var same, k := PatternWord(src, ip, p);
      Realign(src, ip, ip + (if same then 8 else k), ip, start, p);
      if !same {
        AtPeriod(p, k, ip - start);
        assert k + (ip - start) == ip + k - start;
        return ip + k - start;
      }
      ip := ip + 8;
    }
    var k := 0;
    while ip + k < iEnd && src[ip + k] == pattern[k]
      invariant k <= 7 && ip + k <= iEnd && Cycles(src, start, ip + k, start, p)
    {
      PatternByte(p, k, ip - start);
      k := k + 1;
    }
    if ip + k < iEnd {
      PatternByte(p, k, ip - start);
    }
    n := ip + k - start;
  }

  lemma {:induction false} PatternByte(p: seq<byte>, k: nat, d: nat)
    requires |p| == 4 && k < 8 && d % 4 == 0
    ensures (p + p)[k] == At(p, d + k)
  {
    DoubledAt(p, k);
    AtPeriod(p, k, d);
  }

  method PatternWord(src: seq<byte>, ip: nat, p: seq<byte>) returns (same: bool, n: nat)
    requires |p| == 4 && ip + 8 <= |src|
    ensures same ==> Cycles(src, ip, ip + 8, ip, p)
    ensures !same ==> n < 8 && src[ip + n] != At(p, n) && Cycles(src, ip, ip + n, ip, p)
  {
    hide At;
    ghost var s, t := src[ip..ip + 8], p + p;
    same, n := Lz4Words.CommonBytes(src[ip..ip + 8], p + p);
    forall i | ip <= i < ip + (if same then 8 else n)
      ensures src[i] == At(p, i - ip)
    {
      assert s[i - ip] == t[i - ip];
      DoubledAt(p, i - ip);
    }
    if !same {
      assert s[n] == src[ip + n];
      DoubledAt(p, n);
    }
  }

  /** LZ4HC_reverseCountPattern: four bytes per step, then byte by byte; the byte pointer never leaves the
      pattern. Exact. */
  method ReverseCountPattern(src: seq<byte>, start: nat, iLow: nat, p: seq<byte>) returns (n: nat)
    requires |p| == 4 && iLow <= start <= |src|
    ensures iLow + n <= start && Cycles(src, start - n, start, start, p)
    ensures iLow + n < start ==> src[start - n - 1] != At(p, start - n - 1 - start)
  {
    hide At;
    var ip := start;
    while ip >= iLow + 4
      invariant iLow <= ip <= start && (ip - start) % 4 == 0 && Cycles(src, ip, start, start, p)
    {
      if src[ip - 4..ip] != p {
        assert src[ip - 4..ip] == [src[ip - 4], src[ip - 3], src[ip - 2], src[ip - 1]];
        assert p == [p[0], p[1], p[2], p[3]];
        break;
      }
      FourBefore(src, ip, start, p);
      ip := ip - 4;
    }
    n := BytesBefore(src, start, ip, iLow, p);
  }

  /** The last, partial pattern. */
  method BytesBefore(src: seq<byte>, start: nat, ip1: nat, iLow: nat, p: seq<byte>) returns (n: nat)
    requires |p| == 4 && iLow <= ip1 <= start <= |src| && (ip1 - start) % 4 == 0 && Cycles(src, ip1, start, start, p)
    requires ip1 >= iLow + 4 ==> src[ip1 - 4] != p[0] || src[ip1 - 3] != p[1] || src[ip1 - 2] != p[2] || src[ip1 - 1] != p[3]
    ensures iLow + n <= start && Cycles(src, start - n, start, start, p)
    ensures iLow + n < start ==> src[start - n - 1] != At(p, start - n - 1 - start)
  {
    hide At;
    var ip, b := ip1, 3;
    while ip > iLow && src[ip - 1] == p[b]
      invariant 0 <= b <= 3 && ip == ip1 - (3 - b) && iLow <= ip && Cycles(src, ip, start, start, p)
      invariant forall j :: b < j < 4 ==> src[ip1 - 4 + j] == p[j]
    {
      BackByte(p, b, ip1 - start);
      ip, b := ip - 1, b - 1;
    }
    BackByte(p, b, ip1 - start);
    n := start - ip;
  }

  lemma {:induction false} BackByte(p: seq<byte>, b: nat, d: int)
    requires |p| == 4 && b < 4 && d % 4 == 0
    ensures p[b] == At(p, d + b - 4)
  {
    AtPeriod(p, b, d - 4);
  }

  lemma {:induction false} FourBefore(s: seq<byte>, ip: nat, start: nat, p: seq<byte>)
    requires |p| == 4 && 4 <= ip <= start <= |s| && s[ip - 4..ip] == p && (ip - start) % 4 == 0 && Cycles(s, ip, start, start, p)
    ensures Cycles(s, ip - 4, start, start, p)
  {
    hide At;
    forall i | ip - 4 <= i < ip
      ensures s[i] == At(p, i - start)
    {
      assert s[i] == s[ip - 4..ip][i - (ip - 4)];
      BackByte(p, i - (ip - 4), ip - start);
    }
  }
}
