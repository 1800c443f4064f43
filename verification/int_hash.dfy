/** The integer-key hash: the SplitMix64 finalizer on 64-bit words. */
module IntHash {
  import opened Bits

  const MULTIPLIER_1: u64 := 0xbf58476d1ce4e5b9
  const MULTIPLIER_2: u64 := 0x94d049bb133111eb

  // The inverses of the two odd constants modulo 2^64.
  const INVERSE_1: u64 := 0x96de1b173f119089
  const INVERSE_2: u64 := 0x319642b2d24d8ec3

  function XorShift(x: u64, k: nat): (r: u64) {
    ShrFits(x, k);
    XorFits(x, Shr(x, k));
    Xor(x, Shr(x, k))
  }

  /** C's `uint64_t` multiplication. */
  function Times(x: u64, m: u64): (r: u64) {
    x * m % TWO_64
  }

  function KeyHash(key: u64): u64 {
    XorShift(Times(XorShift(Times(XorShift(key, 30), MULTIPLIER_1), 27), MULTIPLIER_2), 31)
  }

  /** `y ^ (y >> k) ^ (y >> 2k)`, which undoes `y = x ^ (x >> k)` when `3k >= 64`. */
  function UnXorShift(y: u64, k: nat): (x: u64) {
    ShrFits(y, k);
    ShrFits(y, 2 * k);
    XorFits(y, Shr(y, k));
    XorFits(Xor(y, Shr(y, k)), Shr(y, 2 * k));
    Xor(Xor(y, Shr(y, k)), Shr(y, 2 * k))
  }

  function KeyOfHash(hash: u64): u64 {
    UnXorShift(Times(UnXorShift(Times(UnXorShift(hash, 31), INVERSE_2), 27), INVERSE_1), 30)
  }

  lemma BitOfXorShift(x: u64, k: nat, i: nat)
    ensures Bit(XorShift(x, k), i) == (Bit(x, i) != Bit(x, i + k))
  {
    BitOfXor(x, Shr(x, k), i);
    BitOfShr(x, k, i);
  }

  lemma BitOfUnXorShift(y: u64, k: nat, i: nat)
    ensures Bit(UnXorShift(y, k), i) == ((Bit(y, i) != Bit(y, i + k)) != Bit(y, i + 2 * k))
  {
    BitOfXor(y, Shr(y, k), i);
    BitOfXor(Xor(y, Shr(y, k)), Shr(y, 2 * k), i);
    BitOfShr(y, k, i);
    BitOfShr(y, 2 * k, i);
  }

  lemma HighBitsClear(x: u64, i: nat)
    requires i >= 64
    ensures !Bit(x, i)
  {
    Pow2At64();
    FitsBits(x, 64);
  }

  /** Bit `i` of either composite is `x_i ^ x_(i+3k)`, and no bit from 64 on is set. */
  lemma XorShiftUndone(x: u64, k: nat)
    requires 3 * k >= 64
    ensures UnXorShift(XorShift(x, k), k) == x
    ensures XorShift(UnXorShift(x, k), k) == x
  {
    forall i: nat
      ensures Bit(UnXorShift(XorShift(x, k), k), i) == Bit(x, i)
      ensures Bit(XorShift(UnXorShift(x, k), k), i) == Bit(x, i)
    {
      BitOfUnXorShift(XorShift(x, k), k, i);
      BitOfXorShift(x, k, i);
      BitOfXorShift(x, k, i + k);
      BitOfXorShift(x, k, i + 2 * k);
      BitOfXorShift(UnXorShift(x, k), k, i);
      BitOfUnXorShift(x, k, i);
      BitOfUnXorShift(x, k, i + k);
      HighBitsClear(x, i + 3 * k);
    }
    SameBits(UnXorShift(XorShift(x, k), k), x);
    SameBits(XorShift(UnXorShift(x, k), k), x);
  }

  /** Multiplying by `m` and then by its inverse modulo 2^64 gives the word back. */
  lemma TimesUndone(x: u64, m: u64, inv: u64, q: nat)
    requires m * inv == 1 + TWO_64 * q
    ensures Times(Times(x, m), inv) == x
  {
    InverseUndoes(x, m, inv, q, TWO_64);
  }

  lemma InverseUndoes(x: nat, m: nat, inv: nat, q: nat, n: nat)
    requires x < n && m * inv == 1 + n * q
    ensures (x * m % n) * inv % n == x
  {
    var d, s := x * m / n, x * m % n;
    assert x * m == n * d + s;
    assert (x * m) * inv == (n * d) * inv + s * inv;
    assert (x * m) * inv == x * (m * inv);
    assert x * (1 + n * q) == x + n * (x * q);
    assert (n * d) * inv == n * (d * inv);
    assert n * (x * q) - n * (d * inv) == n * (x * q - d * inv);
    assert s * inv >= 0;
    ModUnique(s * inv, n, x * q - d * inv, x);
  }

  lemma MultipliersInvert(x: u64)
    ensures Times(Times(x, MULTIPLIER_1), INVERSE_1) == x
    ensures Times(Times(x, INVERSE_1), MULTIPLIER_1) == x
    ensures Times(Times(x, MULTIPLIER_2), INVERSE_2) == x
    ensures Times(Times(x, INVERSE_2), MULTIPLIER_2) == x
  {
    TimesUndone(x, MULTIPLIER_1, INVERSE_1, 0x70c3bca78f27f46c);
    TimesUndone(x, INVERSE_1, MULTIPLIER_1, 0x70c3bca78f27f46c);
    TimesUndone(x, MULTIPLIER_2, INVERSE_2, 0x1cd336eda85f1453);
    TimesUndone(x, INVERSE_2, MULTIPLIER_2, 0x1cd336eda85f1453);
  }

  lemma HashUndone(x: u64)
    ensures KeyOfHash(KeyHash(x)) == x
  {
    var h1 := XorShift(x, 30);
    var h2 := Times(h1, MULTIPLIER_1);
    var h3 := XorShift(h2, 27);
    var h4 := Times(h3, MULTIPLIER_2);
    XorShiftUndone(h4, 31);
    MultipliersInvert(h3);
    XorShiftUndone(h2, 27);
    MultipliersInvert(h1);
    XorShiftUndone(x, 30);
  }

  lemma UnhashUndone(x: u64)
    ensures KeyHash(KeyOfHash(x)) == x
  {
    var g1 := UnXorShift(x, 31);
    var g2 := Times(g1, INVERSE_2);
    var g3 := UnXorShift(g2, 27);
    var g4 := Times(g3, INVERSE_1);
    XorShiftUndone(g4, 30);
    MultipliersInvert(g3);
    XorShiftUndone(g2, 27);
    MultipliersInvert(g1);
    XorShiftUndone(x, 31);
  }

  /** Distinct integer keys never share a cached hash, and every word is some key's hash. */
  lemma DistinctKeysHashApart(a: u64, b: u64)
    ensures KeyHash(a) == KeyHash(b) <==> a == b
    ensures exists k: u64 :: KeyHash(k) == a
  {
    HashUndone(a);
    HashUndone(b);
    UnhashUndone(a);
  }

  /** What the finalizer does, bit by bit and product by product, with the shifts and
      multipliers written out. */
  lemma KeyHashByStages(key: u64) returns (a: u64, b: u64, c: u64, d: u64)
    ensures forall i: nat :: Bit(a, i) == (Bit(key, i) != Bit(key, i + 30))
    ensures b == a * 0xbf58476d1ce4e5b9 % 0x1_0000_0000_0000_0000
    ensures forall i: nat :: Bit(c, i) == (Bit(b, i) != Bit(b, i + 27))
    ensures d == c * 0x94d049bb133111eb % 0x1_0000_0000_0000_0000
    ensures forall i: nat :: Bit(KeyHash(key), i) == (Bit(d, i) != Bit(d, i + 31))
  {
    hide XorShift;
    a := XorShift(key, 30);
    b := Times(a, MULTIPLIER_1);
    c := XorShift(b, 27);
    d := Times(c, MULTIPLIER_2);
    forall i: nat ensures Bit(a, i) == (Bit(key, i) != Bit(key, i + 30)) { BitOfXorShift(key, 30, i); }
    forall i: nat ensures Bit(c, i) == (Bit(b, i) != Bit(b, i + 27)) { BitOfXorShift(b, 27, i); }
    forall i: nat ensures Bit(KeyHash(key), i) == (Bit(d, i) != Bit(d, i + 31)) { BitOfXorShift(d, 31, i); }
  }
}
