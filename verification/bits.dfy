/** Unsigned machine arithmetic, written out on natural numbers: powers of two,
    single bits, and the bitwise operators the C code uses on `uint64_t`. */
module Bits {
  const TWO_32: int := 0x1_0000_0000
  const TWO_64: int := 0x1_0000_0000_0000_0000

  type u16 = x: int | 0 <= x < 0x1_0000
  type u32 = x: int | 0 <= x < 0x1_0000_0000
  type u64 = x: int | 0 <= x < 0x1_0000_0000_0000_0000
  type i32 = x: int | -0x8000_0000 <= x < 0x8000_0000

  function Pow2(n: nat): (p: nat)
    ensures p >= 1
  {
    if n == 0 then 1 else 2 * Pow2(n - 1)
  }

  ghost predicate IsPow2(c: nat) {
    exists k: nat :: Pow2(k) == c
  }

  /** The number of bits up to and including the highest set one. */
  function BitLength(v: nat): nat {
    if v == 0 then 0 else 1 + BitLength(v / 2)
  }

  /** `(x >> i) & 1`. */
  predicate Bit(x: nat, i: nat) {
    if i == 0 then x % 2 == 1 else Bit(x / 2, i - 1)
  }

  function Shr(x: nat, k: nat): nat {
    if k == 0 then x else Shr(x / 2, k - 1)
  }

  function Or(x: nat, y: nat): nat
    decreases x + y
  {
    if x == 0 then y
    else if y == 0 then x
    else (if x % 2 == 1 || y % 2 == 1 then 1 else 0) + 2 * Or(x / 2, y / 2)
  }

  function And(x: nat, y: nat): nat {
    if x == 0 || y == 0 then 0
    else (if x % 2 == 1 && y % 2 == 1 then 1 else 0) + 2 * And(x / 2, y / 2)
  }

  function Xor(x: nat, y: nat): nat
    decreases x + y
  {
    if x == 0 then y
    else if y == 0 then x
    else (if x % 2 != y % 2 then 1 else 0) + 2 * Xor(x / 2, y / 2)
  }

  lemma {:induction false} BitOfZero(i: nat)
    ensures !Bit(0, i)
  {
    if i > 0 { BitOfZero(i - 1); }
  }

  lemma {:induction false} BitOfShr(x: nat, k: nat, i: nat)
    ensures Bit(Shr(x, k), i) == Bit(x, i + k)
  {
    if k > 0 { BitOfShr(x / 2, k - 1, i); }
  }

  lemma {:induction false} BitOfOr(x: nat, y: nat, i: nat)
    ensures Bit(Or(x, y), i) == (Bit(x, i) || Bit(y, i))
    decreases x + y
  {
    if x == 0 || y == 0 {
      BitOfZero(i);
    } else if i > 0 {
      BitOfOr(x / 2, y / 2, i - 1);
    }
  }

  lemma {:induction false} BitOfXor(x: nat, y: nat, i: nat)
    ensures Bit(Xor(x, y), i) == (Bit(x, i) != Bit(y, i))
    decreases x + y
  {
    if x == 0 || y == 0 {
      BitOfZero(i);
    } else if i > 0 {
      BitOfXor(x / 2, y / 2, i - 1);
    }
  }

  /** Bits determine the number. */
  lemma {:induction false} SameBits(x: nat, y: nat)
    requires forall i: nat :: Bit(x, i) == Bit(y, i)
    ensures x == y
    decreases x + y
  {
    assert Bit(x, 0) == Bit(y, 0);
    if x + y > 0 {
      forall i: nat ensures Bit(x / 2, i) == Bit(y / 2, i) { assert Bit(x, i + 1) == Bit(y, i + 1); }
      SameBits(x / 2, y / 2);
    }
  }

  ghost predicate ClearFrom(x: nat, w: nat) {
    forall i: nat :: i >= w ==> !Bit(x, i)
  }

  /** A number fits in `w` bits exactly when no bit from `w` on is set. */
  lemma {:induction false} FitsBits(x: nat, w: nat)
    ensures x < Pow2(w) <==> ClearFrom(x, w)
    decreases w
  {
    if w == 0 {
      if x != 0 {
        HighestBit(x);
      } else {
        forall i: nat ensures !Bit(x, i) { BitOfZero(i); }
      }
    } else {
      FitsBits(x / 2, w - 1);
      assert ClearFrom(x, w) ==> ClearFrom(x / 2, w - 1) by {
        if ClearFrom(x, w) {
          forall i: nat | i >= w - 1 ensures !Bit(x / 2, i) { assert !Bit(x, i + 1); }
        }
      }
      assert ClearFrom(x / 2, w - 1) ==> ClearFrom(x, w) by {
        if ClearFrom(x / 2, w - 1) {
          forall i: nat | i >= w ensures !Bit(x, i) { assert !Bit(x / 2, i - 1); }
        }
      }
    }
  }

  lemma {:induction false} ShrFits(x: nat, k: nat)
    ensures Shr(x, k) <= x
  {
    if k > 0 { ShrFits(x / 2, k - 1); }
  }

  lemma XorFits(x: u64, y: u64)
    ensures Xor(x, y) < TWO_64
  {
    Pow2At64();
    FitsBits(x, 64);
    FitsBits(y, 64);
    forall i: nat | i >= 64 ensures !Bit(Xor(x, y), i) { BitOfXor(x, y, i); }
    FitsBits(Xor(x, y), 64);
  }

  /** A number whose set bits are exactly the lowest `w` is `2^w - 1`. */
  lemma {:induction false} AllOnes(x: nat, w: nat)
    requires forall i: nat :: Bit(x, i) <==> i < w
    ensures x == Pow2(w) - 1
    decreases w
  {
    assert Bit(x, 0) <==> 0 < w;
    forall i: nat
      ensures Bit(x / 2, i) <==> i + 1 < w
    {
      assert Bit(x, i + 1) <==> i + 1 < w;
    }
    if w == 0 {
      NoOnes(x);
    } else {
      AllOnes(x / 2, w - 1);
    }
  }

  lemma {:induction false} NoOnes(x: nat)
    requires forall i: nat :: !Bit(x, i)
    ensures x == 0
  {
    if x != 0 {
      assert !Bit(x, 0);
      forall i: nat ensures !Bit(x / 2, i) { assert !Bit(x, i + 1); }
      NoOnes(x / 2);
    }
  }

  /** The highest set bit of a positive number is the one below its bit length. */
  lemma {:induction false} HighestBit(v: nat)
    requires v > 0
    ensures BitLength(v) >= 1 && Bit(v, BitLength(v) - 1)
    ensures forall i: nat :: i >= BitLength(v) ==> !Bit(v, i)
  {
    if v == 1 {
      assert BitLength(v / 2) == 0;
      forall i: nat | i >= 1 ensures !Bit(v, i) { BitOfZero(i - 1); }
    } else {
      HighestBit(v / 2);
      assert BitLength(v) >= 2;
      forall i: nat | i >= BitLength(v) ensures !Bit(v, i) { assert !Bit(v / 2, i - 1); }
    }
  }

  /** The bit length brackets the number between two powers of two. */
  lemma {:induction false} BitLengthBrackets(v: nat)
    requires v > 0
    ensures BitLength(v) >= 1
    ensures Pow2(BitLength(v) - 1) <= v < Pow2(BitLength(v))
  {
    if v > 1 { BitLengthBrackets(v / 2); }
  }

  lemma {:induction false} Pow2Monotone(a: nat, b: nat)
    requires a <= b
    ensures Pow2(a) <= Pow2(b)
  {
    if a < b { Pow2Monotone(a, b - 1); }
  }

  lemma {:induction false} Pow2StrictlyMonotone(a: nat, b: nat)
    requires a < b
    ensures 2 * Pow2(a) <= Pow2(b)
  {
    Pow2Monotone(a + 1, b);
  }

  lemma {:induction false} Pow2Adds(a: nat, b: nat)
    ensures Pow2(a + b) == Pow2(a) * Pow2(b)
  {
    if a > 0 { Pow2Adds(a - 1, b); }
  }

  lemma Pow2At64()
    ensures Pow2(63) == 0x8000_0000_0000_0000 && Pow2(64) == TWO_64
  {
    Pow2At16();
    var n: nat := 16;
    Pow2Adds(n, n);
    Pow2Adds(n + n, n + n);
    assert Pow2(64) == 2 * Pow2(63);
  }

  lemma Pow2At16()
    ensures Pow2(16) == 0x1_0000
  {
    var n: nat := 4;
    assert Pow2(n) == 16;
    Pow2Adds(n, n);
    Pow2Adds(n + n, n + n);
  }

  lemma DoublePow2(c: nat)
    requires IsPow2(c)
    ensures IsPow2(2 * c)
  {
    var k: nat :| Pow2(k) == c;
    assert Pow2(k + 1) == 2 * c;
  }

  /** From 4 up, powers of two are multiples of 4. */
  lemma Pow2MultipleOf4(c: nat)
    requires IsPow2(c) && c > 2
    ensures c % 4 == 0
  {
    var k: nat :| Pow2(k) == c;
    Pow2Monotone(0, 1);
    assert k != 0 && k != 1;
    if k >= 2 {
      var quarter := Pow2(k - 2);
      assert Pow2(k - 1) == 2 * quarter;
      assert c == 4 * quarter;
    }
  }

  /** A nonzero multiple of `m` is at least `m` away from zero. */
  lemma MultipleIsFar(m: nat, d: int)
    requires m > 0
    ensures d >= 1 ==> m * d >= m
    ensures d <= -1 ==> m * d + m <= 0
  {
    assert d >= 1 ==> m * (d - 1) >= 0;
    assert d <= -1 ==> m * (d + 1) <= 0;
  }

  lemma ModUnique(x: nat, m: nat, q: int, r: nat)
    requires m > 0 && r < m && x == m * q + r
    ensures x % m == r
  {
    var d := x / m - q;
    assert m * d == r - x % m by {
      assert x == m * (x / m) + x % m;
      assert m * (x / m) - m * q == m * d;
    }
    MultipleIsFar(m, d);
  }

  /** The remainder modulo `2 * p`, one bit at a time. */
  lemma HalveMod(x: nat, p: nat)
    requires p > 0
    ensures x % (2 * p) == x % 2 + 2 * (x / 2 % p)
  {
    var q, b := x / 2 / p, x / 2 % p;
    assert x / 2 == p * q + b;
    assert (2 * p) * q == 2 * (p * q);
    ModUnique(x, 2 * p, q, 2 * b + x % 2);
  }

  /** `x & (c - 1)` is reduction modulo `c` when `c` is a power of two. */
  lemma {:induction false} MaskIsMod(x: nat, k: nat)
    ensures And(x, Pow2(k) - 1) == x % Pow2(k)
    decreases k
  {
    hide And;
    if k == 0 {
      AndOfZero(x);
    } else {
      var p := Pow2(k - 1);
      HalveMod(x, p);
      MaskIsMod(x / 2, k - 1);
      MaskStep(x, p);
    }
  }

  lemma AndOfZero(x: nat)
    ensures And(x, 0) == 0 && x % 1 == 0
  {}

  lemma MaskStep(x: nat, p: nat)
    requires p > 0
    ensures And(x, 2 * p - 1) == x % 2 + 2 * And(x / 2, p - 1)
  {
    assert (2 * p - 1) / 2 == p - 1 && (2 * p - 1) % 2 == 1;
  }

  lemma MaskOfCapacity(x: nat, c: nat)
    requires IsPow2(c)
    ensures And(x, c - 1) == x % c
  {
    var k: nat :| Pow2(k) == c;
    MaskIsMod(x, k);
  }

  lemma {:induction false} OrTopBit(x: nat, k: nat)
    requires x < 2 * Pow2(k)
    ensures Or(x, Pow2(k)) == if x < Pow2(k) then x + Pow2(k) else x
  {
    if x > 0 && k > 0 {
      OrTopBit(x / 2, k - 1);
    }
  }

  /** Bit `k` is set when the remainder modulo the next power reaches the bit's own value. */
  lemma {:induction false} RemainderHasBit(x: nat, k: nat)
    ensures Bit(x, k) == (x % Pow2(k + 1) >= Pow2(k))
  {
    if k > 0 {
      RemainderHasBit(x / 2, k - 1);
      HalveMod(x, Pow2(k));
    }
  }

  /** Taking a set bit's value away clears that bit alone. */
  lemma {:induction false} ClearBit(x: nat, k: nat)
    requires Bit(x, k)
    ensures x >= Pow2(k)
    ensures forall i: nat :: Bit(x - Pow2(k), i) == (i != k && Bit(x, i))
  {
    if k == 0 {
      forall i: nat ensures Bit(x - 1, i) == (i != 0 && Bit(x, i)) { assert (x - 1) / 2 == x / 2; }
    } else {
      ClearBit(x / 2, k - 1);
      var p := Pow2(k - 1);
      assert (x - 2 * p) / 2 == x / 2 - p && (x - 2 * p) % 2 == x % 2;
      forall i: nat ensures Bit(x - 2 * p, i) == (i != k && Bit(x, i)) {
        if i > 0 { assert Bit(x / 2 - p, i - 1) == (i - 1 != k - 1 && Bit(x / 2, i - 1)); }
      }
    }
  }

  /** Adding a clear bit's value sets that bit alone. */
  lemma {:induction false} RaiseBit(x: nat, k: nat)
    requires !Bit(x, k)
    ensures forall i: nat :: Bit(x + Pow2(k), i) == (i == k || Bit(x, i))
  {
    if k == 0 {
      forall i: nat ensures Bit(x + 1, i) == (i == 0 || Bit(x, i)) { assert (x + 1) / 2 == x / 2; }
    } else {
      RaiseBit(x / 2, k - 1);
      var p := Pow2(k - 1);
      assert (x + 2 * p) / 2 == x / 2 + p && (x + 2 * p) % 2 == x % 2;
      forall i: nat ensures Bit(x + 2 * p, i) == (i == k || Bit(x, i)) {
        if i > 0 { assert Bit(x / 2 + p, i - 1) == (i - 1 == k - 1 || Bit(x / 2, i - 1)); }
      }
    }
  }
}
