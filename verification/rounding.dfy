/** `util_round_ceil2_ull`: round up to a power of two, in both compiled forms. */
module Rounding {
  import opened Bits

  const TWO_63: int := 0x8000_0000_0000_0000

  /** `__builtin_clzll`, undefined for 0. */
  function CountLeadingZeros(v: u64): (n: nat)
    requires v > 0
    ensures n == 64 - BitLength(v) && n < 64
  {
    BitLengthFits(v);
    BitLengthBrackets(v);
    64 - BitLength(v)
  }

  /** The GCC/Clang form. Above 2^63 the shift count reaches 64 and C leaves the
      result undefined. */
  function RoundCeil2(value: u64): (r: u64)
    requires value <= TWO_63
    ensures value <= 2 ==> r == value
    ensures value > 2 ==> IsPow2(r) && value <= r < 2 * value
  {
    if value <= 2 then value
    else
      RoundedIsPow2(value);
      Pow2(64 - CountLeadingZeros(value - 1))
  }

  lemma BitLengthFits(v: u64)
    ensures BitLength(v) <= 64
  {
    if BitLength(v) > 64 {
      BitLengthBrackets(v);
      Pow2Monotone(64, BitLength(v) - 1);
      Pow2At64();
    }
  }

  lemma RoundedIsPow2(value: u64)
    requires 2 < value <= TWO_63
    ensures BitLength(value - 1) <= 63
    ensures var r := Pow2(BitLength(value - 1)); IsPow2(r) && value <= r < 2 * value && r < TWO_64
  {
    var w := BitLength(value - 1);
    BitLengthBrackets(value - 1);
    Pow2At64();
    if w > 63 { Pow2Monotone(63, w - 1); }
    assert Pow2(w) == 2 * Pow2(w - 1);
    Pow2Monotone(w, 63);
  }

  /** The bracket leaves no choice: a power of two in `[v, 2v)` is unique. */
  lemma RoundingIsUnique(v: nat, r: nat, s: nat)
    requires IsPow2(r) && v <= r < 2 * v
    requires IsPow2(s) && v <= s < 2 * v
    ensures r == s
  {
    var a: nat :| Pow2(a) == r;
    var b: nat :| Pow2(b) == s;
    if a < b { Pow2StrictlyMonotone(a, b); }
    if b < a { Pow2StrictlyMonotone(b, a); }
  }

  /** All set bits of `x` lie below `w`, and the highest `m` of those places are set. */
  ghost predicate TopOnes(x: nat, w: nat, m: nat) {
    && (forall i: nat :: Bit(x, i) ==> i < w)
    && (forall i: nat :: w <= i + m && i < w ==> Bit(x, i))
  }

  function Smear(x: nat, m: nat): nat {
    Or(x, Shr(x, m))
  }

  /** One smearing step doubles the run of ones. */
  lemma SmearStep(x: nat, w: nat, m: nat)
    requires TopOnes(x, w, m)
    ensures TopOnes(Smear(x, m), w, 2 * m)
  {
    forall i: nat
      ensures Bit(Smear(x, m), i) ==> i < w
      ensures w <= i + 2 * m && i < w ==> Bit(Smear(x, m), i)
    {
      BitOfOr(x, Shr(x, m), i);
      BitOfShr(x, m, i);
      assert Bit(x, i + m) ==> i + m < w;
    }
  }

  /** Six steps fill all 64 places. */
  lemma SmearedIsAllOnes(x: u64)
    requires x > 0
    ensures SmearAll(x) == Pow2(BitLength(x)) - 1
  {
    var w := BitLength(x);
    HighestBit(x);
    BitLengthFits(x);
    assert TopOnes(x, w, 1) by {
      assert forall i: nat :: Bit(x, i) ==> i < w;
    }
    SmearStep(x, w, 1);
    var x2 := Smear(x, 1);
    SmearStep(x2, w, 2);
    var x4 := Smear(x2, 2);
    SmearStep(x4, w, 4);
    var x8 := Smear(x4, 4);
    SmearStep(x8, w, 8);
    var x16 := Smear(x8, 8);
    SmearStep(x16, w, 16);
    var x32 := Smear(x16, 16);
    SmearStep(x32, w, 32);
    var x64 := Smear(x32, 32);
    forall i: nat ensures Bit(x64, i) <==> i < w { }
    AllOnes(x64, w);
  }

  /** The portable form: smear the highest bit downwards, then add one. */
  method RoundCeil2Smear(value: u64) returns (r: u64)
    ensures value <= TWO_63 ==> r == RoundCeil2(value)
    ensures value > TWO_63 ==> r == 0
  {
    if value <= 2 {
      return value;
    }
    SmearFormRounds(value);
    var v: nat := value - 1;
    v := Smear(v, 1);
    v := Smear(v, 2);
    v := Smear(v, 4);
    v := Smear(v, 8);
    v := Smear(v, 16);
    v := Smear(v, 32);
    r := (v + 1) % TWO_64;
  }

  function SmearAll(x: nat): nat {
    Smear(Smear(Smear(Smear(Smear(Smear(x, 1), 2), 4), 8), 16), 32)
  }

  lemma SmearFormRounds(value: u64)
    requires value > 2
    ensures (SmearAll(value - 1) + 1) % TWO_64 == if value <= TWO_63 then RoundCeil2(value) else 0
  {
    hide Pow2, BitLength, SmearAll, RoundCeil2;
    SmearedIsAllOnes(value - 1);
    if value <= TWO_63 {
      ClzForm(value);
    } else {
      RoundAbove(value);
    }
  }

  /** What the clz form returns, with the shift count spelled out. */
  lemma ClzForm(value: u64)
    requires 2 < value <= TWO_63
    ensures RoundCeil2(value) == Pow2(BitLength(value - 1)) < TWO_64
  {
    RoundedIsPow2(value);
  }

  /** Above 2^63 the smeared value is 2^64 - 1, so adding one wraps to 0. */
  lemma RoundAbove(value: u64)
    requires value > TWO_63
    ensures Pow2(BitLength(value - 1)) == TWO_64
  {
    hide Pow2, BitLength;
    Pow2At64();
    BitLengthFits(value - 1);
    BitLengthBrackets(value - 1);
    if BitLength(value - 1) < 64 { Pow2Monotone(BitLength(value - 1), 63); }
  }
}
