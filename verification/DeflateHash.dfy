// The rolling hash of zlib's deflate.c (UPDATE_HASH): three bytes decide it, and the first two bytes and the
// hash decide the third.

module DeflateHash {
  /** hash_shift and hash_mask: the hash has 8 to 16 bits, and three shifts move a byte out of it. */
  datatype Hash = Hash(shift: bv32, mask: bv32) {
    predicate Ok() {
      || (shift == 3 && (mask == 0xff || mask == 0x1ff))
      || (shift == 4 && (mask == 0x3ff || mask == 0x7ff || mask == 0xfff))
      || (shift == 5 && (mask == 0x1fff || mask == 0x3fff || mask == 0x7fff))
      || (shift == 6 && mask == 0xffff)
    }

    /** hash_size. */
    function Size(): nat {
      if mask == 0xff then 0x100 else if mask == 0x1ff then 0x200 else if mask == 0x3ff then 0x400
      else if mask == 0x7ff then 0x800 else if mask == 0xfff then 0x1000 else if mask == 0x1fff then 0x2000
      else if mask == 0x3fff then 0x4000 else if mask == 0x7fff then 0x8000 else 0x1_0000
    }

    function Up(h: bv32): bv32
      requires Ok()
    {
      h << shift
    }

    function Masked(h: bv32): bv32 {
      h & mask
    }

    function Shifted(h: bv32): bv32
      requires Ok()
    {
      Masked(Up(h))
    }

    /** UPDATE_HASH. */
    function Update(h: bv32, c: bv8): bv32
      requires Ok()
    {
      Masked(Xor(Up(h), Wide(c)))
    }

    /** The hash of three bytes. */
    function Key(a: bv8, b: bv8, c: bv8): bv32
      requires Ok()
    {
      Update(Update(Wide(a), b), c)
    }

    /** The running hash `h` is ready for the byte after `a` and `b`; what it knows of older bytes is shifted out. */
    predicate Rolled(h: bv32, a: bv8, b: bv8)
      requires Ok()
    {
      Shifted(h) == Shifted(Update(Wide(a), b))
    }
  }

  function Wide(c: bv8): bv32 {
    c as bv32
  }

  function Xor(a: bv32, b: bv32): bv32 {
    a ^ b
  }

  /** The hash as an index. */
  function Index(h: bv32): nat {
    h as int
  }

  // ----- facts about the bits -----

  lemma {:induction false} RawThree(h: bv32, s: bv32, m: bv32)
    requires (s == 3 && m <= 0x1ff) || (s == 4 && m <= 0xfff) || (s == 5 && m <= 0x7fff) || (s == 6 && m <= 0xffff)
    ensures (((((h << s) & m) << s) & m) << s) & m == 0
  {
  }

  lemma {:induction false} ShiftedThrice(z: Hash, h: bv32)
    requires z.Ok()
    ensures z.Shifted(z.Shifted(z.Shifted(h))) == 0
  {
    RawThree(h, z.shift, z.mask);
  }

  lemma {:induction false} RawXor(a: bv32, b: bv32, s: bv32, m: bv32)
    requires s <= 6
    ensures ((a ^ b) << s) & m == ((a << s) & m) ^ ((b << s) & m)
  {
  }

  lemma {:induction false} ShiftedXor(z: Hash, a: bv32, b: bv32)
    requires z.Ok()
    ensures z.Shifted(Xor(a, b)) == Xor(z.Shifted(a), z.Shifted(b))
  {
    RawXor(a, b, z.shift, z.mask);
  }

  lemma {:induction false} RawMasked(x: bv32, c: bv8, m: bv32)
    requires m & 0xff == 0xff
    ensures (x ^ (c as bv32)) & m == (x & m) ^ (c as bv32)
  {
  }

  lemma {:induction false} LowMask(z: Hash)
    requires z.Ok()
    ensures z.mask & 0xff == 0xff
  {
  }

  lemma {:induction false} MaskedXor(z: Hash, x: bv32, c: bv8)
    requires z.Ok()
    ensures z.Masked(Xor(x, Wide(c))) == Xor(z.Masked(x), Wide(c))
  {
    LowMask(z);
    RawMasked(x, c, z.mask);
  }

  lemma {:induction false} UpdateIs(z: Hash, h: bv32, c: bv8)
    requires z.Ok()
    ensures z.Update(h, c) == Xor(z.Shifted(h), Wide(c))
  {
    hide Xor, Wide, Hash.Up, Hash.Masked, Hash.Ok;
    MaskedXor(z, z.Up(h), c);
  }

  lemma {:induction false} XorZero(a: bv32)
    ensures Xor(0, a) == a
  {
  }

  lemma {:induction false} XorSame(x: bv32, c: bv8, d: bv8)
    requires Xor(x, Wide(c)) == Xor(x, Wide(d))
    ensures c == d
  {
  }

  lemma {:induction false} RawIndex(x: bv32)
    ensures x <= 0xff ==> x as int < 0x100
    ensures x <= 0x1ff ==> x as int < 0x200
    ensures x <= 0x3ff ==> x as int < 0x400
    ensures x <= 0x7ff ==> x as int < 0x800
    ensures x <= 0xfff ==> x as int < 0x1000
    ensures x <= 0x1fff ==> x as int < 0x2000
    ensures x <= 0x3fff ==> x as int < 0x4000
    ensures x <= 0x7fff ==> x as int < 0x8000
    ensures x <= 0xffff ==> x as int < 0x1_0000
  {
  }

  lemma {:induction false} RawBelow(x: bv32, m: bv32)
    ensures x & m <= m
  {
  }

  lemma {:induction false} BelowMask(z: Hash, x: bv32)
    ensures z.Masked(x) <= z.mask
  {
    RawBelow(x, z.mask);
  }

  lemma {:induction false} BelowSize(z: Hash, y: bv32)
    requires z.Ok() && y <= z.mask
    ensures Index(y) < z.Size()
  {
    RawIndex(y);
  }

  lemma {:induction false} IndexFits(z: Hash, h: bv32, c: bv8)
    requires z.Ok()
    ensures Index(z.Update(h, c)) < z.Size()
  {
    hide Xor, Wide, Hash.Up, Hash.Masked, Hash.Ok, Hash.Size, Index;
    BelowMask(z, Xor(z.Up(h), Wide(c)));
    BelowSize(z, z.Update(h, c));
  }

  lemma {:induction false} IndexUnique(g: bv32, h: bv32)
    requires Index(g) == Index(h)
    ensures g == h
  {
    IndexBack(g);
    IndexBack(h);
  }

  lemma {:induction false} IndexBack(h: bv32)
    ensures (h as int) as bv32 == h
  {
  }

  // ----- the rolling hash -----

  /** A ready hash and the next byte give the hash of the three bytes. */
  lemma {:induction false} Rolls(z: Hash, h: bv32, a: bv8, b: bv8, c: bv8)
    requires z.Ok() && z.Rolled(h, a, b)
    ensures z.Update(h, c) == z.Key(a, b, c)
    ensures z.Rolled(z.Update(h, c), b, c)
  {
    hide Hash.Update, Hash.Shifted, Hash.Up, Hash.Masked, Xor, Wide, Hash.Ok;
    var g := z.Update(Wide(a), b);
    var k := z.Update(h, c);
    UpdateIs(z, h, c);
    UpdateIs(z, g, c);
    UpdateIs(z, Wide(a), b);
    ShiftedXor(z, z.Shifted(Wide(a)), Wide(b));
    ShiftedXor(z, z.Shifted(h), Wide(c));
    ShiftedXor(z, z.Shifted(z.Shifted(Wide(a))), z.Shifted(Wide(b)));
    ShiftedThrice(z, Wide(a));
    XorZero(z.Shifted(z.Shifted(Wide(b))));
    UpdateIs(z, Wide(b), c);
    ShiftedXor(z, z.Shifted(Wide(b)), Wide(c));
  }

  /** Two bytes and the hash determine the third byte, because the hash has at least 8 bits. */
  lemma {:induction false} ThirdByte(z: Hash, a: bv8, b: bv8, c: bv8, d: bv8)
    requires z.Ok() && Index(z.Key(a, b, c)) == Index(z.Key(a, b, d))
    ensures c == d
  {
    hide Hash.Update, Hash.Shifted, Hash.Up, Hash.Masked, Xor, Wide, Hash.Ok, Index;
    IndexUnique(z.Key(a, b, c), z.Key(a, b, d));
    var g := z.Update(Wide(a), b);
    UpdateIs(z, g, c);
    UpdateIs(z, g, d);
    XorSame(z.Shifted(g), c, d);
  }
}
