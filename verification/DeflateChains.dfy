// The hash chains of zlib's deflate.c: head[] and prev[] over a sliding window of twice w_size bytes.

module DeflateChains {
  import opened DeflateHash

  /** str & w_mask for a window position. */
  function Slot(p: nat, size: nat): (s: nat)
    requires p < 2 * size
    ensures s < size
  {
    if p < size then p else p - size
  }

  function KeyAt(z: Hash, w: seq<bv8>, p: nat): nat
    requires z.Ok() && p + 2 < |w|
  {
    Index(z.Key(w[p], w[p + 1], w[p + 2]))
  }

  lemma {:induction false} KeyFits(z: Hash, w: seq<bv8>, p: nat)
    requires z.Ok() && p + 2 < |w|
    ensures KeyAt(z, w, p) < z.Size()
  {
    hide Index, Hash.Update, Hash.Size;
    IndexFits(z, z.Update(Wide(w[p]), w[p + 1]), w[p + 2]);
  }

  /** NIL, or an inserted position whose string has the hash `k`. Position 0 is NIL and never matched. */
  ghost predicate Names(z: Hash, w: seq<bv8>, ins: set<nat>, q: nat, k: nat)
    requires z.Ok()
  {
    q == 0 || (q in ins && q + 2 < |w| && KeyAt(z, w, q) == k)
  }

  /**
   * The chain invariant. `ins` holds the inserted positions, `top` the last of them, `end` the end of the data.
   * Every head names a string with its hash. The link of a string names an earlier string with the same hash,
   * unless the slot has been taken over by a string w_size further on. Both name the latest such string there is.
   */
  ghost predicate Chained(z: Hash, w: seq<bv8>, size: nat, end: nat, head: seq<nat>, prev: seq<nat>, ins: set<nat>, top: nat)
  {
    && z.Ok() && |w| == 2 * size && end <= |w| && |head| == z.Size() && |prev| == size
    && Behind(ins, top, end) && Within(ins, top, end) && HeadsName(z, w, head, ins) && LinksName(z, w, size, prev, ins, top)
    && Latest(z, w, size, head, prev, ins, top)
  }

  /** The last inserted string was all data. */
  ghost predicate Behind(ins: set<nat>, top: nat, end: nat) {
    top + 2 < end || (top == 0 && ins == {})
  }

  ghost predicate Within(ins: set<nat>, top: nat, end: nat) {
    forall p :: p in ins ==> 0 < p <= top && p + 2 < end
  }

  ghost predicate HeadsName(z: Hash, w: seq<bv8>, head: seq<nat>, ins: set<nat>)
    requires z.Ok()
  {
    forall i :: 0 <= i < |head| ==> Names(z, w, ins, head[i], i)
  }

  ghost predicate LinksName(z: Hash, w: seq<bv8>, size: nat, prev: seq<nat>, ins: set<nat>, top: nat)
    requires z.Ok() && |w| == 2 * size && |prev| == size
  {
    forall p :: p in ins && p + 2 < |w| && p + size > top ==>
      Names(z, w, ins, prev[Slot(p, size)], KeyAt(z, w, p)) && prev[Slot(p, size)] < p
  }

  /** No string is left out: none with the hash comes after the head, nor between a string and its link. */
  ghost predicate Latest(z: Hash, w: seq<bv8>, size: nat, head: seq<nat>, prev: seq<nat>, ins: set<nat>, top: nat)
    requires z.Ok() && |w| == 2 * size && |prev| == size
  {
    && (forall p :: p in ins && p + 2 < |w| && KeyAt(z, w, p) < |head| ==> p <= head[KeyAt(z, w, p)])
    && forall p, q :: p in ins && q in ins && q < p && p + 2 < |w| && p + size > top && KeyAt(z, w, q) == KeyAt(z, w, p) ==> q <= prev[Slot(p, size)]
  }

  /** No string from `p` on has been inserted. */
  ghost predicate Fresh(ins: set<nat>, top: nat, p: nat) {
    top < p || (p == 0 && top == 0 && ins == {})
  }

  ghost function With(ins: set<nat>, p: nat): set<nat> {
    if p == 0 then ins else ins + {p}
  }

  /** INSERT_STRING keeps the invariant. */
  lemma {:induction false} Inserted(z: Hash, w: seq<bv8>, size: nat, end: nat, head: seq<nat>, prev: seq<nat>,
      ins: set<nat>, top: nat, p: nat, h: nat)
    requires Chained(z, w, size, end, head, prev, ins, top) && Fresh(ins, top, p)
    requires p + 2 < end && h == KeyAt(z, w, p) && h < |head|
    ensures Chained(z, w, size, end, head[h := p], prev[Slot(p, size) := head[h]], With(ins, p), p)
    ensures Names(z, w, ins, head[h], h)
  {
    hide KeyAt, Hash.Ok, Hash.Size, Latest;
    var ins' := With(ins, p);
    var prev' := prev[Slot(p, size) := head[h]];
    forall q | q in ins' && q + size > p
      ensures Names(z, w, ins', prev'[Slot(q, size)], KeyAt(z, w, q)) && prev'[Slot(q, size)] < q
    {
      if q != p {
        assert q in ins && q < p;
        assert Slot(q, size) != Slot(p, size);
      }
    }
    var head' := head[h := p];
    forall i | 0 <= i < |head| ensures Names(z, w, ins', head'[i], i) {
      assert Names(z, w, ins, head[i], i);
    }
    InsertedLatest(z, w, size, end, head, prev, ins, top, p, h);
  }

  lemma {:induction false} InsertedLatest(z: Hash, w: seq<bv8>, size: nat, end: nat, head: seq<nat>, prev: seq<nat>,
      ins: set<nat>, top: nat, p: nat, h: nat)
    requires Chained(z, w, size, end, head, prev, ins, top) && Fresh(ins, top, p)
    requires p + 2 < end && h == KeyAt(z, w, p) && h < |head|
    ensures Latest(z, w, size, head[h := p], prev[Slot(p, size) := head[h]], With(ins, p), p)
  {
    hide KeyAt, Hash.Ok, Hash.Size, HeadsName, LinksName;
    var ins' := With(ins, p);
    var prev' := prev[Slot(p, size) := head[h]];
    forall r, q | r in ins' && q in ins' && q < r && r + size > p && KeyAt(z, w, q) == KeyAt(z, w, r)
      ensures q <= prev'[Slot(r, size)]
    {
      if r != p {
        assert r in ins && r < p;
        assert Slot(r, size) != Slot(p, size);
      }
    }
  }

  /** New data behind the old change nothing. */
  lemma {:induction false} Grown(z: Hash, w: seq<bv8>, v: seq<bv8>, size: nat, end: nat, end': nat,
      head: seq<nat>, prev: seq<nat>, ins: set<nat>, top: nat)
    requires Chained(z, w, size, end, head, prev, ins, top)
    requires |v| == |w| && end <= end' <= |v| && v[..end] == w[..end]
    ensures Chained(z, v, size, end', head, prev, ins, top)
  {
    hide Hash.Ok, Hash.Size, Hash.Key, Index;
    forall p | p in ins ensures KeyAt(z, v, p) == KeyAt(z, w, p) {
      SameKey(z, w, v, p, p, end);
    }
    forall i | 0 <= i < |head| ensures Names(z, v, ins, head[i], i) {
      assert Names(z, w, ins, head[i], i);
    }
    assert Latest(z, v, size, head, prev, ins, top);
  }

  lemma {:induction false} SameKey(z: Hash, w: seq<bv8>, v: seq<bv8>, p: nat, q: nat, end: nat)
    requires z.Ok() && p + 2 < end <= |w| && q + 2 < |v| && q <= p
    requires forall i :: q <= i < q + 3 ==> v[i] == w[i + (p - q)]
    ensures KeyAt(z, v, q) == KeyAt(z, w, p)
  {
    hide Hash.Ok, Hash.Key, Index;
    assert v[q] == w[p] && v[q + 1] == w[p + 1] && v[q + 2] == w[p + 2];
  }

  /** An entry of head[] or prev[] after slide_hash. */
  function SlidEntry(m: nat, size: nat): nat {
    if m >= size then m - size else 0
  }

  ghost function SlidSet(ins: set<nat>, size: nat): set<nat> {
    set p | p in ins && p > size :: p - size
  }

  /** The data of the upper half, moved down. */
  ghost predicate Moved(w: seq<bv8>, v: seq<bv8>, size: nat, end: nat) {
    |v| == |w| == 2 * size && size <= end <= |w| && forall i :: 0 <= i < end - size ==> v[i] == w[i + size]
  }

  ghost predicate SlidTable(t: seq<nat>, u: seq<nat>, size: nat) {
    |u| == |t| && forall i :: 0 <= i < |t| ==> u[i] == SlidEntry(t[i], size)
  }

  /** Sliding the window and the tables together keeps the invariant. */
  lemma {:induction false} Slid(z: Hash, w: seq<bv8>, v: seq<bv8>, size: nat, end: nat, head: seq<nat>, head': seq<nat>,
      prev: seq<nat>, prev': seq<nat>, ins: set<nat>, top: nat)
    requires Chained(z, w, size, end, head, prev, ins, top)
    requires Moved(w, v, size, end) && SlidTable(head, head', size) && SlidTable(prev, prev', size)
    ensures Chained(z, v, size, end - size, head', prev', SlidSet(ins, size), SlidEntry(top, size))
  {
    hide Hash.Ok, Hash.Size, LinksName, Moved, SlidTable, Names, Latest;
    assert |v| == |w| && |head'| == |head| && |prev'| == |prev| by {
      SlidLengths(w, v, size, end, head, head', prev, prev');
    }
    if top < size {
      assert SlidSet(ins, size) == {};
    }
    SlidHeads(z, w, v, size, end, head, head', ins, top);
    SlidLinks(z, w, v, size, end, prev, prev', ins, top);
    SlidLatest(z, w, v, size, end, head, head', prev, prev', ins, top);
  }

  lemma {:induction false} SlidLatest(z: Hash, w: seq<bv8>, v: seq<bv8>, size: nat, end: nat, head: seq<nat>, head': seq<nat>,
      prev: seq<nat>, prev': seq<nat>, ins: set<nat>, top: nat)
    requires z.Ok() && Within(ins, top, end) && |prev| == size && Moved(w, v, size, end) && SlidTable(head, head', size) && SlidTable(prev, prev', size)
    requires Latest(z, w, size, head, prev, ins, top)
    ensures Latest(z, v, size, head', prev', SlidSet(ins, size), SlidEntry(top, size))
  {
    hide Hash.Ok, KeyAt;
    var ins' := SlidSet(ins, size);
    forall p | p in ins'
      ensures p + size in ins && p + 2 < |v| && KeyAt(z, v, p) == KeyAt(z, w, p + size)
    {
      SameKey(z, w, v, p + size, p, end);
    }
    forall p | p in ins' && KeyAt(z, v, p) < |head'|
      ensures p <= head'[KeyAt(z, v, p)]
    {
      assert p + size <= head[KeyAt(z, w, p + size)];
    }
    forall p, q | p in ins' && q in ins' && q < p && p + size > SlidEntry(top, size) && KeyAt(z, v, q) == KeyAt(z, v, p)
      ensures q <= prev'[Slot(p, size)]
    {
      var p0 := p + size;
      assert Slot(p0, size) == Slot(p, size) == p;
      assert q + size <= prev[p];
    }
  }

  lemma {:induction false} SlidLengths(w: seq<bv8>, v: seq<bv8>, size: nat, end: nat, head: seq<nat>, head': seq<nat>,
      prev: seq<nat>, prev': seq<nat>)
    requires Moved(w, v, size, end) && SlidTable(head, head', size) && SlidTable(prev, prev', size)
    ensures |v| == |w| && |head'| == |head| && |prev'| == |prev| && size <= end
  {
  }

  lemma {:induction false} SlidHeads(z: Hash, w: seq<bv8>, v: seq<bv8>, size: nat, end: nat,
      head: seq<nat>, head': seq<nat>, ins: set<nat>, top: nat)
    requires z.Ok() && Within(ins, top, end) && HeadsName(z, w, head, ins)
    requires Moved(w, v, size, end) && SlidTable(head, head', size)
    ensures HeadsName(z, v, head', SlidSet(ins, size))
  {
    hide Hash.Ok, Names, SlidSet, SlidEntry;
    forall i | 0 <= i < |head'| ensures Names(z, v, SlidSet(ins, size), head'[i], i) {
      assert Names(z, w, ins, head[i], i);
      SlidName(z, w, v, size, end, ins, top, head[i], i);
    }
  }

  lemma {:induction false} SlidLinks(z: Hash, w: seq<bv8>, v: seq<bv8>, size: nat, end: nat,
      prev: seq<nat>, prev': seq<nat>, ins: set<nat>, top: nat)
    requires z.Ok() && Within(ins, top, end) && |prev| == size && Moved(w, v, size, end) && SlidTable(prev, prev', size)
    requires LinksName(z, w, size, prev, ins, top)
    ensures LinksName(z, v, size, prev', SlidSet(ins, size), SlidEntry(top, size))
  {
    hide Hash.Ok, Names, KeyAt;
    var ins' := SlidSet(ins, size);
    forall p | p in ins' && p + 2 < |v| && p + size > SlidEntry(top, size)
      ensures Names(z, v, ins', prev'[Slot(p, size)], KeyAt(z, v, p)) && prev'[Slot(p, size)] < p
    {
      var p0 := p + size;
      assert p0 in ins && Slot(p0, size) == Slot(p, size) == p;
      SameKey(z, w, v, p0, p, end);
      assert Names(z, w, ins, prev[p], KeyAt(z, w, p0)) && prev[p] < p0;
      SlidName(z, w, v, size, end, ins, top, prev[p], KeyAt(z, w, p0));
    }
  }

  lemma {:induction false} SlidName(z: Hash, w: seq<bv8>, v: seq<bv8>, size: nat, end: nat, ins: set<nat>, top: nat, q: nat, k: nat)
    requires z.Ok() && Moved(w, v, size, end) && Within(ins, top, end) && Names(z, w, ins, q, k)
    ensures Names(z, v, SlidSet(ins, size), SlidEntry(q, size), k)
  {
    hide Hash.Ok, KeyAt;
    if q > size {
      SameKey(z, w, v, q, q - size, end);
      assert q - size in SlidSet(ins, size);
    }
  }

  /** CLEAR_HASH forgets everything. */
  lemma {:induction false} Cleared(z: Hash, w: seq<bv8>, size: nat, end: nat, head: seq<nat>, prev: seq<nat>)
    requires z.Ok() && |w| == 2 * size && end <= |w| && |head| == z.Size() && |prev| == size
    requires forall i :: 0 <= i < |head| ==> head[i] == 0
    ensures Chained(z, w, size, end, head, prev, {}, 0)
  {
    hide Hash.Ok, Hash.Size;
  }

  /** Why longest_match need not compare the third byte. */
  lemma {:induction false} ThirdByteEqual(z: Hash, w: seq<bv8>, p: nat, q: nat)
    requires z.Ok() && p + 2 < |w| && q + 2 < |w| && KeyAt(z, w, p) == KeyAt(z, w, q)
    requires w[p] == w[q] && w[p + 1] == w[q + 1]
    ensures w[p + 2] == w[q + 2]
  {
    hide Hash.Ok, Hash.Key, Index;
    ThirdByte(z, w[p], w[p + 1], w[p + 2], w[q + 2]);
  }

  // ----- the walk along a chain -----

  /** The strings looked at from `cur` on: at most `n`, all above `limit`. */
  ghost function Walk(prev: seq<nat>, size: nat, limit: nat, cur: nat, n: nat): (v: seq<nat>)
    requires |prev| == size
    ensures |v| <= n
    decreases n
  {
    if n == 0 || cur <= limit || cur >= 2 * size then [] else [cur] + Walk(prev, size, limit, prev[Slot(cur, size)], n - 1)
  }

  /** When the count is not used up, the walk has come by every inserted string with the hash that is in reach. */
  lemma {:induction false} WalksAll(z: Hash, w: seq<bv8>, size: nat, end: nat, head: seq<nat>, prev: seq<nat>, ins: set<nat>, top: nat,
      limit: nat, cur: nat, n: nat, p: nat)
    requires Chained(z, w, size, end, head, prev, ins, top) && p + 2 < |w| && Names(z, w, ins, cur, KeyAt(z, w, p))
    requires p in ins && limit < p <= cur && top <= limit + size
    ensures p in Walk(prev, size, limit, cur, n) || |Walk(prev, size, limit, cur, n)| == n
    decreases n
  {
    hide Hash.Ok, Hash.Size, KeyAt, HeadsName;
    if n > 0 && p != cur {
      var next := prev[Slot(cur, size)];
      assert p <= next;
      WalksAll(z, w, size, end, head, prev, ins, top, limit, next, n - 1, p);
    }
  }

  /** Two strings with the same hash. */
  ghost predicate Alike(z: Hash, w: seq<bv8>, p: nat, q: nat) {
    z.Ok() && p + 2 < |w| && q + 2 < |w| && KeyAt(z, w, p) == KeyAt(z, w, q)
  }

  /** No inserted string with the hash of the one at `q` comes after `p`. */
  ghost predicate NoneAfter(z: Hash, w: seq<bv8>, ins: set<nat>, p: nat, q: nat) {
    forall x :: x in ins && Alike(z, w, x, q) ==> x <= p
  }

  /** Strings with that hash before `q`, the latest first. */
  ghost predicate Descending(z: Hash, w: seq<bv8>, ins: set<nat>, v: seq<nat>, q: nat) {
    && (forall i, j :: 0 <= i < j < |v| ==> v[j] < v[i])
    && forall x :: x in v ==> x < q && x in ins && Alike(z, w, x, q)
  }

  lemma {:induction false} NoneDescends(z: Hash, w: seq<bv8>, ins: set<nat>, q: nat)
    ensures Descending(z, w, ins, [], q)
  {
  }

  lemma {:induction false} OneBefore(z: Hash, w: seq<bv8>, ins: set<nat>, v: seq<nat>, p: nat, q: nat)
    requires Descending(z, w, ins, v, q) && p < q && p in ins && Alike(z, w, p, q) && forall x :: x in v ==> x < p
    ensures Descending(z, w, ins, [p] + v, q)
  {
    hide Alike;
    var u := [p] + v;
    forall i, j | 0 <= i < j < |u| ensures u[j] < u[i] {
      assert u[j] == v[j - 1] && v[j - 1] in v;
      if i > 0 {
        assert u[i] == v[i - 1];
      }
    }
  }

  lemma {:induction false} WalkDescends(z: Hash, w: seq<bv8>, size: nat, end: nat, head: seq<nat>, prev: seq<nat>, ins: set<nat>, top: nat,
      limit: nat, cur: nat, n: nat, q: nat)
    requires Chained(z, w, size, end, head, prev, ins, top) && q + 2 < |w| && Names(z, w, ins, cur, KeyAt(z, w, q)) && cur < q && top <= limit + size
    ensures Descending(z, w, ins, Walk(prev, size, limit, cur, n), q)
    ensures forall x :: x in Walk(prev, size, limit, cur, n) ==> x <= cur
    decreases n
  {
    hide Hash.Ok, Hash.Size, KeyAt, HeadsName, Latest, Descending;
    NoneDescends(z, w, ins, q);
    if n > 0 && limit < cur < 2 * size {
      var next := prev[Slot(cur, size)];
      WalkDescends(z, w, size, end, head, prev, ins, top, limit, next, n - 1, q);
      OneBefore(z, w, ins, Walk(prev, size, limit, next, n - 1), cur, q);
    }
  }

  /** A string with the hash of the one at `q`, and those its chain goes on to. */
  lemma {:induction false} ChainDescends(z: Hash, w: seq<bv8>, size: nat, end: nat, head: seq<nat>, prev: seq<nat>, ins: set<nat>, top: nat,
      limit: nat, first: nat, n: nat, q: nat)
    requires Chained(z, w, size, end, head, prev, ins, top) && q + 2 < |w| && Names(z, w, ins, first, KeyAt(z, w, q))
    requires 0 < first < q && top <= limit + size && top < first + size
    ensures first in ins && Alike(z, w, first, q) && first < 2 * size
    ensures Descending(z, w, ins, [first] + Walk(prev, size, limit, prev[Slot(first, size)], n), q)
  {
    hide Hash.Ok, Hash.Size, KeyAt, HeadsName, Latest, Descending, Walk;
    var next := prev[Slot(first, size)];
    WalkDescends(z, w, size, end, head, prev, ins, top, limit, next, n, q);
    OneBefore(z, w, ins, Walk(prev, size, limit, next, n), first, q);
  }
}
