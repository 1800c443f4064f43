/** rapidhash, as used for string keys: the portable 128-bit multiply and the
    walk of `rapidhashMicro_internal` over the key bytes. */
module RapidHash {
  import opened Bits

  type u8 = x: int | 0 <= x < 0x100

  const SECRET_0: u64 := 0x2d358dccaa6c78a5
  const SECRET_1: u64 := 0x8bb84b93962eacc9
  const SECRET_2: u64 := 0x4b33a62ed433d4a3
  const SECRET_3: u64 := 0x4d5a2da51de1aa47
  const SECRET_4: u64 := 0xa0761d6478bd642f
  const SECRET_7: u64 := 0xaaaaaaaaaaaaaaaa

  /** The two halves of a 128-bit product determine it. */
  lemma HalvesAreUnique(lo: u64, hi: nat, product: nat)
    requires lo + TWO_64 * hi == product
    ensures lo == product % TWO_64 && hi == product / TWO_64
  {}

  /** Long multiplication in base 2^32. */
  lemma LongMultiply(a: nat, b: nat, ha: nat, la: nat, hb: nat, lb: nat)
    requires a == ha * TWO_32 + la && b == hb * TWO_32 + lb
    ensures a * b == TWO_64 * (ha * hb) + TWO_32 * (ha * lb) + TWO_32 * (hb * la) + la * lb
  {
    assert (ha * TWO_32) * b == TWO_64 * (ha * hb) + TWO_32 * (ha * lb);
    assert la * b == TWO_32 * (hb * la) + la * lb;
    assert a * b == (ha * TWO_32) * b + la * b;
  }

  /** The carry chain, on the four 32-bit products. */
  method AddProducts(rh: u64, rm0: u64, rm1: u64, rl: u64) returns (lo: u64, hi: u64)
    requires TWO_64 * rh + TWO_32 * rm0 + TWO_32 * rm1 + rl < TWO_64 * TWO_64
    ensures lo + TWO_64 * hi == TWO_64 * rh + TWO_32 * rm0 + TWO_32 * rm1 + rl
  {
    ShiftLeft32(rm0);
    ShiftLeft32(rm1);
    var shifted0: u64, shifted1: u64 := rm0 * TWO_32 % TWO_64, rm1 * TWO_32 % TWO_64;
    var t: u64 := (rl + shifted0) % TWO_64;
    AddCarry(rl, shifted0);
    var c: u64 := if t < rl then 1 else 0;
    lo := (t + shifted1) % TWO_64;
    AddCarry(t, shifted1);
    c := c + if lo < t then 1 else 0;
    hi := (rh + rm0 / TWO_32 + rm1 / TWO_32 + c) % TWO_64;
  }

  lemma ProductFits(a: nat, b: nat, m: nat)
    requires a <= m && b <= m
    ensures a * b <= m * m
  {}

  /** The portable branch of `rapid_mum`: four 32-bit products and two carries,
      with every operation modulo 2^64. The result is the exact product. */
  method RapidMum(a: u64, b: u64) returns (lo: u64, hi: u64)
    ensures lo + TWO_64 * hi == a * b
    ensures lo == LowHalf(a, b) && hi == HighHalf(a, b)
  {
    var ha, hb, la, lb := a / TWO_32, b / TWO_32, a % TWO_32, b % TWO_32;
    ProductFits(ha, hb, TWO_32 - 1);
    ProductFits(ha, lb, TWO_32 - 1);
    ProductFits(hb, la, TWO_32 - 1);
    ProductFits(la, lb, TWO_32 - 1);
    ProductFits(a, b, TWO_64 - 1);
    LongMultiply(a, b, ha, la, hb, lb);
    lo, hi := AddProducts(ha * hb, ha * lb, hb * la, la * lb);
    HalvesAreUnique(lo, hi, a * b);
  }

  function LowHalf(a: u64, b: u64): u64 {
    a * b % TWO_64
  }

  function HighHalf(a: u64, b: u64): u64 {
    ProductFits(a, b, TWO_64 - 1);
    a * b / TWO_64
  }

  /** An unsigned sum wrapped exactly when it is below its first operand. */
  lemma AddCarry(x: u64, y: u64)
    ensures var s := (x + y) % TWO_64; s + TWO_64 * (if s < x then 1 else 0) == x + y
  {}

  lemma ShiftLeft32(x: u64)
    ensures x * TWO_32 % TWO_64 == x % TWO_32 * TWO_32
    ensures x * TWO_32 == x % TWO_32 * TWO_32 + TWO_64 * (x / TWO_32)
  {
    ModUnique(x * TWO_32, TWO_64, x / TWO_32, x % TWO_32 * TWO_32);
  }

  function Xor64(x: u64, y: u64): u64 {
    XorFits(x, y);
    Xor(x, y)
  }

  function Mix(a: u64, b: u64): u64 {
    Xor64(LowHalf(a, b), HighHalf(a, b))
  }

  method RapidMix(a: u64, b: u64) returns (r: u64)
    ensures r == Mix(a, b)
    ensures r == Xor(a * b % TWO_64, a * b / TWO_64)
  {
    var lo, hi := RapidMum(a, b);
    r := Xor64(lo, hi);
  }

  // ---- reading the key ----

  /** The number that `width` bytes from `at` spell, the lowest byte first. */
  function LittleEndian(key: seq<u8>, at: nat, width: nat): nat
    requires at + width <= |key|
    decreases width
  {
    if width == 0 then 0 else key[at] + 0x100 * LittleEndian(key, at + 1, width - 1)
  }

  lemma {:induction false} LittleEndianFits(key: seq<u8>, at: nat, width: nat)
    requires at + width <= |key|
    ensures LittleEndian(key, at, width) < Pow2(8 * width)
    decreases width
  {
    hide Pow2;
    if width > 0 {
      LittleEndianFits(key, at + 1, width - 1);
      NextByte(8 * (width - 1));
    }
  }

  lemma NextByte(bits: nat)
    ensures Pow2(bits + 8) == 0x100 * Pow2(bits)
  {
    Pow2Adds(8, bits);
    assert Pow2(8) == 0x100;
  }

  lemma WordFits(key: seq<u8>, at: nat, width: nat)
    requires at + width <= |key| && width <= 8
    ensures LittleEndian(key, at, width) < TWO_64
  {
    LittleEndianFits(key, at, width);
    Pow2Monotone(8 * width, 64);
    Pow2At64();
  }

  /** Different bytes spell different numbers. */
  lemma {:induction false} LittleEndianInjective(a: seq<u8>, b: seq<u8>, at: nat, width: nat)
    requires at + width <= |a| && at + width <= |b|
    requires LittleEndian(a, at, width) == LittleEndian(b, at, width)
    ensures forall i :: at <= i < at + width ==> a[i] == b[i]
    decreases width
  {
    if width > 0 {
      assert a[at] == b[at];
      LittleEndianInjective(a, b, at + 1, width - 1);
    }
  }

  /** One read of the key: `width` bytes from offset `at`, and the word they make. What is
      digested are the words of reads, so a read recorded is a read digested. */
  datatype Read = Read(at: nat, width: nat, word: u64)

  function ReadAt(key: seq<u8>, at: nat, width: nat): (r: Read)
    requires at + width <= |key| && width <= 8
  {
    WordFits(key, at, width);
    Read(at, width, LittleEndian(key, at, width))
  }

  /** Where to read, without the key. */
  datatype Span = Span(at: nat, width: nat)

  ghost predicate Inside(spans: seq<Span>, n: nat) {
    forall k :: 0 <= k < |spans| ==> spans[k].at + spans[k].width <= n && spans[k].width <= 8
  }

  ghost function Reads(key: seq<u8>, spans: seq<Span>): (log: seq<Read>)
    requires Inside(spans, |key|)
    ensures |log| == |spans|
    ensures forall k :: 0 <= k < |log| ==> log[k] == ReadAt(key, spans[k].at, spans[k].width)
  {
    seq(|spans|, k requires 0 <= k < |spans| && Inside(spans, |key|) => ReadAt(key, spans[k].at, spans[k].width))
  }

  function Words(log: seq<Read>): (ws: seq<u64>)
    ensures |ws| == |log| && forall k :: 0 <= k < |log| ==> ws[k] == log[k].word
  {
    seq(|log|, k requires 0 <= k < |log| => log[k].word)
  }

  // ---- what is read, and how it is digested: the reference ----

  /** The reads for a key of `n` bytes: up to 16 bytes two or three that may overlap; above
      that all 16-byte pairs from the front that end before the key does, and the last 16 bytes. */
  ghost function Layout(n: nat): (spans: seq<Span>)
    ensures Inside(spans, n)
    ensures n > 16 ==> |spans| == 2 * ((n - 1) / 16) + 2
  {
    if n == 0 then []
    else if n < 4 then [Span(0, 1), Span(n - 1, 1), Span(n / 2, 1)]
    else if n < 8 then [Span(0, 4), Span(n - 4, 4)]
    else if n <= 16 then [Span(0, 8), Span(n - 8, 8)]
    else
      var pairs := (n - 1) / 16;
      seq(2 * pairs + 2, k requires 0 <= k < 2 * pairs + 2 =>
        Span(if k < 2 * pairs then 8 * k else n - 16 + 8 * (k - 2 * pairs), 8))
  }

  /** The two halves of a product, folded into one. */
  function Folded(x: nat, y: nat): nat {
    Xor(x * y % TWO_64, x * y / TWO_64)
  }

  /** The multiplier of lane `j`. */
  function LaneSecret(j: nat): nat {
    if j == 0 then 0x2d358dccaa6c78a5
    else if j == 1 then 0x8bb84b93962eacc9
    else if j == 2 then 0x4b33a62ed433d4a3
    else if j == 3 then 0x4d5a2da51de1aa47
    else 0xa0761d6478bd642f
  }

  /** Lane `j` of five after `r` stripes of ten words: it takes the pair at `2 * j` of each. */
  ghost function Lane(ws: seq<u64>, seed: nat, j: nat, r: nat): nat
    requires j < 5 && 10 * r <= |ws|
    decreases r
  {
    if r == 0 then seed
    else
      Folded(Xor(ws[10 * (r - 1) + 2 * j], LaneSecret(j)),
             Xor(ws[10 * (r - 1) + 2 * j + 1], Lane(ws, seed, j, r - 1)))
  }

  /** The single lane that takes the pairs left over after the stripes. */
  ghost function Leftover(ws: seq<u64>, start: nat, seed: nat, q: nat): nat
    requires start + 2 * q <= |ws|
    decreases q
  {
    if q == 0 then seed
    else
      Folded(Xor(ws[start + 2 * (q - 1)], LaneSecret(if q <= 2 then 2 else 1)),
             Xor(ws[start + 2 * (q - 1) + 1], Leftover(ws, start, seed, q - 1)))
  }

  ghost function Merged(ws: seq<u64>, seed: nat, stripes: nat): nat
    requires 10 * stripes <= |ws|
  {
    if stripes == 0 then seed
    else
      Xor(Xor(Xor(Lane(ws, seed, 0, stripes), Lane(ws, seed, 1, stripes)), Lane(ws, seed, 4, stripes)),
          Xor(Lane(ws, seed, 2, stripes), Lane(ws, seed, 3, stripes)))
  }

  function Finished(a: nat, b: nat, seed: nat, i: nat): nat {
    var product := Xor(a, 0x8bb84b93962eacc9) * Xor(b, seed);
    Folded(Xor(product % TWO_64, 0xaaaaaaaaaaaaaaaa), Xor(Xor(product / TWO_64, 0x8bb84b93962eacc9), i))
  }

  /** Every 16-byte pair that ends before a key of `n` bytes does belongs to a stripe of five
      or is left over. */
  lemma PairsBeforeTheLast(n: nat)
    requires n > 16
    ensures var stripes := (n - 1) / 80;
            && 80 * stripes < n <= 80 * stripes + 80
            && (n - 1) / 16 == 5 * stripes + (n - 80 * stripes - 1) / 16
  {}

  ghost function ReferenceLong(ws: seq<u64>, n: nat, seed: nat): nat
    requires n > 16 && |ws| == 2 * ((n - 1) / 16) + 2
  {
    PairsBeforeTheLast(n);
    var pairs, stripes := (n - 1) / 16, (n - 1) / 80;
    var left := n - 80 * stripes;
    Finished(Xor(ws[2 * pairs], left), ws[2 * pairs + 1],
             Leftover(ws, 10 * stripes, Merged(ws, seed, stripes), pairs - 5 * stripes), left)
  }

  function BothEnds(first: nat, last: nat): nat {
    0x2000_0000_0000 * first + last
  }

  /** The digest of the words read, for a key of `n` bytes. Every word enters at its own place. */
  ghost function Reference(ws: seq<u64>, n: nat, seed0: nat): nat
    requires |ws| == |Layout(n)|
  {
    var seed := Xor(seed0, Folded(Xor(seed0, 0x4b33a62ed433d4a3), 0x8bb84b93962eacc9));
    if n == 0 then Finished(0, 0, seed, 0)
    else if n < 4 then Finished(BothEnds(ws[0], ws[1]), ws[2], seed, n)
    else if n <= 16 then Finished(ws[0], ws[1], Xor(seed, n), n)
    else ReferenceLong(ws, n, seed)
  }

  // ---- the walk of the code ----

  /** The walk's position `p`, the bytes `i` left from there, the accumulators, and the reads so far. */
  datatype Walk = Walk(p: nat, i: nat, seed: u64, see1: u64, see2: u64, see3: u64, see4: u64, log: seq<Read>)

  datatype Digest = Digest(hash: u64, log: seq<Read>)

  /** Sixteen bytes as two reads. */
  function Pair(key: seq<u8>, at: nat): (pair: seq<Read>)
    requires at + 16 <= |key|
    ensures |pair| == 2
  {
    [ReadAt(key, at, 8), ReadAt(key, at + 8, 8)]
  }

  /** A pair of reads folded into an accumulator. */
  function Fold(pair: seq<Read>, secret: u64, acc: u64): u64
    requires |pair| == 2
  {
    Mix(Xor64(pair[0].word, secret), Xor64(pair[1].word, acc))
  }

  function Stripe(key: seq<u8>, w: Walk): Walk
    requires w.i > 80 && w.p + w.i == |key|
  {
    var p0, p1, p2 := Pair(key, w.p), Pair(key, w.p + 16), Pair(key, w.p + 32);
    var p3, p4 := Pair(key, w.p + 48), Pair(key, w.p + 64);
    Walk(w.p + 80, w.i - 80,
         Fold(p0, SECRET_0, w.seed), Fold(p1, SECRET_1, w.see1), Fold(p2, SECRET_2, w.see2),
         Fold(p3, SECRET_3, w.see3), Fold(p4, SECRET_4, w.see4),
         w.log + p0 + p1 + p2 + p3 + p4)
  }

  function Stripes(key: seq<u8>, w: Walk): Walk
    requires w.p + w.i == |key|
    decreases w.i
  {
    if w.i > 80 then Stripes(key, Stripe(key, w)) else w
  }

  /** One more pair at distance `d` from the position, for the single accumulator. */
  function Step(key: seq<u8>, w: Walk, d: nat, secret: u64): Walk
    requires w.p + d + 16 <= |key|
  {
    var pair := Pair(key, w.p + d);
    w.(seed := Fold(pair, secret, w.seed), log := w.log + pair)
  }

  /** The remaining 16-byte steps for more than 16 bytes, in the order of the nested tests. */
  function Steps(key: seq<u8>, w: Walk): Walk
    requires w.p + w.i == |key| && w.i <= 80
  {
    var s1 := if w.i > 16 then Step(key, w, 0, SECRET_2) else w;
    var s2 := if w.i > 32 then Step(key, s1, 16, SECRET_2) else s1;
    var s3 := if w.i > 48 then Step(key, s2, 32, SECRET_1) else s2;
    if w.i > 64 then Step(key, s3, 48, SECRET_1) else s3
  }

  function Combine(w: Walk): u64 {
    Xor64(Xor64(Xor64(w.seed, w.see1), w.see4), Xor64(w.see2, w.see3))
  }

  function Finish(a: u64, b: u64, seed: u64, i: u64): u64 {
    var x, y := Xor64(a, SECRET_1), Xor64(b, seed);
    Mix(Xor64(LowHalf(x, y), SECRET_7), Xor64(Xor64(HighHalf(x, y), SECRET_1), i))
  }

  function StartSeed(seed0: u64): u64 {
    Xor64(seed0, Mix(Xor64(seed0, SECRET_2), SECRET_1))
  }

  /** `(p[0] << 45) | p[len - 1]`: the two bytes do not overlap. */
  function Ends(first: Read, last: Read): u64
    requires first.word < 0x100 && last.word < 0x100
  {
    0x2000_0000_0000 * first.word + last.word
  }

  function ReadByte(key: seq<u8>, at: nat): (r: Read)
    requires at < |key|
    ensures r.word == key[at] < 0x100 && r.at == at && r.width == 1
  {
    assert LittleEndian(key, at, 1) == key[at] + 0x100 * LittleEndian(key, at + 1, 0);
    ReadAt(key, at, 1)
  }

  function MicroShort(key: seq<u8>, seed: u64): Digest
    requires |key| <= 16
  {
    var n := |key|;
    if n == 0 then
      Digest(Finish(0, 0, seed, 0), [])
    else if n < 4 then
      var first, last, middle := ReadByte(key, 0), ReadByte(key, n - 1), ReadByte(key, n / 2);
      Digest(Finish(Ends(first, last), middle.word, seed, n), [first, last, middle])
    else
      var width := if n < 8 then 4 else 8;
      var front, back := ReadAt(key, 0, width), ReadAt(key, n - width, width);
      Digest(Finish(front.word, back.word, Xor64(seed, n), n), [front, back])
  }

  function StartWalk(key: seq<u8>, seed: u64): Walk {
    Walk(0, |key|, seed, seed, seed, seed, seed, [])
  }

  /** The walk up to the last sixteen bytes, which are always read once more. */
  function MicroWalk(key: seq<u8>, seed: u64): (w: Walk)
    requires 16 < |key| < TWO_64
    ensures w.i < TWO_64
  {
    StripesKeepFrame(key, StartWalk(key, seed));
    var w := Stripes(key, StartWalk(key, seed));
    Steps(key, if |key| > 80 then w.(seed := Combine(w)) else w)
  }

  /** What `rapidhashMicro_internal` computes, and the reads it makes in order. */
  function Micro(key: seq<u8>, seed0: u64): Digest
    requires |key| < TWO_64
  {
    if |key| <= 16 then
      MicroShort(key, StartSeed(seed0))
    else
      var w, tail := MicroWalk(key, StartSeed(seed0)), Pair(key, |key| - 16);
      Digest(Finish(Xor64(tail[0].word, w.i), tail[1].word, w.seed, w.i), w.log + tail)
  }

  lemma {:induction false} StripesKeepFrame(key: seq<u8>, w: Walk)
    requires w.p + w.i == |key|
    ensures var s := Stripes(key, w); s.p + s.i == |key| && s.i <= 80
    decreases w.i
  {
    if w.i > 80 { StripesKeepFrame(key, Stripe(key, w)); }
  }

  // ---- the walk is the reference ----

  /** The words that the reference digests. */
  ghost function KeyWords(key: seq<u8>): (ws: seq<u64>)
    ensures |ws| == |Layout(|key|)|
  {
    Words(Reads(key, Layout(|key|)))
  }

  lemma LayoutAt(n: nat, k: nat)
    requires n > 16 && k < 2 * ((n - 1) / 16) + 2
    ensures Layout(n)[k] == Span(if k < 2 * ((n - 1) / 16) then 8 * k else n - 16 + 8 * (k - 2 * ((n - 1) / 16)), 8)
  {}

  lemma ReadsAt(key: seq<u8>, k: nat)
    requires k < |Layout(|key|)|
    ensures var span := Layout(|key|)[k];
            && span.at + span.width <= |key| && span.width <= 8
            && Reads(key, Layout(|key|))[k] == ReadAt(key, span.at, span.width)
            && KeyWords(key)[k] == ReadAt(key, span.at, span.width).word
  {
    hide Layout, ReadAt;
  }

  lemma TwoReads(key: seq<u8>, k: nat, at: nat)
    requires |key| > 16 && k + 1 < 2 * ((|key| - 1) / 16) + 2 && at + 16 <= |key|
    requires Layout(|key|)[k] == Span(at, 8) && Layout(|key|)[k + 1] == Span(at + 8, 8)
    ensures Reads(key, Layout(|key|))[k..k + 2] == Pair(key, at)
    ensures KeyWords(key)[k] == Pair(key, at)[0].word && KeyWords(key)[k + 1] == Pair(key, at)[1].word
  {
    hide Layout, ReadAt, Reads, KeyWords;
    ReadsAt(key, k);
    ReadsAt(key, k + 1);
  }

  /** Above 16 bytes the `k`-th pair from the front is at `16 * k`. */
  lemma FrontPair(key: seq<u8>, k: nat)
    requires |key| > 16 && 16 * k + 16 < |key|
    ensures 2 * k + 2 < |Layout(|key|)|
    ensures Reads(key, Layout(|key|))[2 * k..2 * k + 2] == Pair(key, 16 * k)
    ensures KeyWords(key)[2 * k] == Pair(key, 16 * k)[0].word
    ensures KeyWords(key)[2 * k + 1] == Pair(key, 16 * k)[1].word
  {
    hide Layout, Pair, Reads, KeyWords;
    assert k < (|key| - 1) / 16;
    LayoutAt(|key|, 2 * k);
    LayoutAt(|key|, 2 * k + 1);
    TwoReads(key, 2 * k, 16 * k);
  }

  lemma LastPair(key: seq<u8>)
    requires |key| > 16
    ensures var m := (|key| - 1) / 16;
            && |Layout(|key|)| == 2 * m + 2
            && Reads(key, Layout(|key|))[2 * m..] == Pair(key, |key| - 16)
            && KeyWords(key)[2 * m] == Pair(key, |key| - 16)[0].word
            && KeyWords(key)[2 * m + 1] == Pair(key, |key| - 16)[1].word
  {
    hide Layout, Pair, Reads, KeyWords;
    var m := (|key| - 1) / 16;
    LayoutAt(|key|, 2 * m);
    LayoutAt(|key|, 2 * m + 1);
    TwoReads(key, 2 * m, |key| - 16);
    assert Reads(key, Layout(|key|))[2 * m..] == Reads(key, Layout(|key|))[2 * m..2 * m + 2];
  }

  lemma FoldIsFolded(pair: seq<Read>, secret: u64, acc: u64)
    requires |pair| == 2
    ensures Fold(pair, secret, acc) == Folded(Xor(pair[0].word, secret), Xor(pair[1].word, acc))
  {}

  /** Where the walk stands after `r` stripes. */
  ghost predicate AfterStripes(key: seq<u8>, seed: u64, r: nat, w: Walk)
    requires 80 * r < |key| && |key| > 16
  {
    var ws := KeyWords(key);
    && 10 * r <= |ws|
    && w.p == 80 * r && w.i == |key| - 80 * r
    && w.seed == Lane(ws, seed, 0, r) && w.see1 == Lane(ws, seed, 1, r) && w.see2 == Lane(ws, seed, 2, r)
    && w.see3 == Lane(ws, seed, 3, r) && w.see4 == Lane(ws, seed, 4, r)
    && w.log == Reads(key, Layout(|key|))[..10 * r]
  }

  lemma LaneStep(ws: seq<u64>, seed: nat, j: nat, r: nat, pair: seq<Read>, secret: u64, acc: u64)
    requires j < 5 && 10 * (r + 1) <= |ws| && |pair| == 2 && secret == LaneSecret(j)
    requires acc == Lane(ws, seed, j, r)
    requires pair[0].word == ws[10 * r + 2 * j] && pair[1].word == ws[10 * r + 2 * j + 1]
    ensures Fold(pair, secret, acc) == Lane(ws, seed, j, r + 1)
  {
    FoldIsFolded(pair, secret, acc);
  }

  lemma FiveSlices<T>(s: seq<T>, a: nat, p0: seq<T>, p1: seq<T>, p2: seq<T>, p3: seq<T>, p4: seq<T>)
    requires a + 10 <= |s|
    requires p0 == s[a..a + 2] && p1 == s[a + 2..a + 4] && p2 == s[a + 4..a + 6]
    requires p3 == s[a + 6..a + 8] && p4 == s[a + 8..a + 10]
    ensures s[..a] + p0 + p1 + p2 + p3 + p4 == s[..a + 10]
  {
    assert s[..a] + p0 == s[..a + 2];
    assert s[..a + 2] + p1 == s[..a + 4];
    assert s[..a + 4] + p2 == s[..a + 6];
    assert s[..a + 6] + p3 == s[..a + 8];
    assert s[..a + 8] + p4 == s[..a + 10];
  }

  /** Pair `j` of stripe `r`: where it is recorded, and its words. */
  lemma StripePair(key: seq<u8>, r: nat, j: nat)
    requires |key| > 16 && 80 * r + 80 < |key| && j < 5
    ensures 10 * r + 10 <= |Layout(|key|)|
    ensures Pair(key, 80 * r + 16 * j) == Reads(key, Layout(|key|))[10 * r + 2 * j..10 * r + 2 * j + 2]
    ensures KeyWords(key)[10 * r + 2 * j] == Pair(key, 80 * r + 16 * j)[0].word
    ensures KeyWords(key)[10 * r + 2 * j + 1] == Pair(key, 80 * r + 16 * j)[1].word
  {
    hide Pair, KeyWords, Layout, Reads;
    FrontPair(key, 5 * r + 4);
    FrontPair(key, 5 * r + j);
    assert 16 * (5 * r + j) == 80 * r + 16 * j;
  }

  lemma StripeLog(key: seq<u8>, r: nat)
    requires |key| > 16 && 80 * r + 80 < |key|
    ensures 10 * r + 10 <= |Reads(key, Layout(|key|))| == |KeyWords(key)|
    ensures var log := Reads(key, Layout(|key|));
            log[..10 * r] + Pair(key, 80 * r) + Pair(key, 80 * r + 16) + Pair(key, 80 * r + 32) + Pair(key, 80 * r + 48)
              + Pair(key, 80 * r + 64) == log[..10 * r + 10]
  {
    hide Pair, KeyWords, Layout, Reads;
    StripePair(key, r, 0);
    StripePair(key, r, 1);
    StripePair(key, r, 2);
    StripePair(key, r, 3);
    StripePair(key, r, 4);
    FiveSlices(Reads(key, Layout(|key|)), 10 * r, Pair(key, 80 * r), Pair(key, 80 * r + 16), Pair(key, 80 * r + 32),
               Pair(key, 80 * r + 48), Pair(key, 80 * r + 64));
  }

  /** Lane `j` takes pair `j` of stripe `r`. */
  lemma StripeLane(key: seq<u8>, seed: nat, r: nat, j: nat, secret: u64, acc: u64)
    requires |key| > 16 && 80 * r + 80 < |key| && j < 5 && secret == LaneSecret(j)
    requires 10 * r + 10 <= |KeyWords(key)| && acc == Lane(KeyWords(key), seed, j, r)
    ensures Fold(Pair(key, 80 * r + 16 * j), secret, acc) == Lane(KeyWords(key), seed, j, r + 1)
  {
    hide Lane, Fold, Pair, KeyWords, Layout, Reads;
    StripePair(key, r, j);
    LaneStep(KeyWords(key), seed, j, r, Pair(key, 80 * r + 16 * j), secret, acc);
  }

  lemma StripeAdvances(key: seq<u8>, seed: u64, r: nat, w: Walk)
    requires |key| > 16 && 80 * r + 80 < |key| && AfterStripes(key, seed, r, w)
    ensures w.i > 80 && AfterStripes(key, seed, r + 1, Stripe(key, w))
  {
    hide Lane, Fold, Pair, KeyWords, Layout, Reads;
    StripeLog(key, r);
    StripeLane(key, seed, r, 0, SECRET_0, w.seed);
    StripeLane(key, seed, r, 1, SECRET_1, w.see1);
    StripeLane(key, seed, r, 2, SECRET_2, w.see2);
    StripeLane(key, seed, r, 3, SECRET_3, w.see3);
    StripeLane(key, seed, r, 4, SECRET_4, w.see4);
  }

  /** All the stripes: as many as leave between 1 and 80 bytes. */
  lemma {:induction false} StripesReach(key: seq<u8>, seed: u64, r: nat, w: Walk)
    requires |key| > 16 && 80 * r < |key| && AfterStripes(key, seed, r, w)
    ensures w.p + w.i == |key|
    ensures AfterStripes(key, seed, (|key| - 1) / 80, Stripes(key, w))
    decreases |key| - 80 * r
  {
    hide Stripe, Lane, Layout, Reads, KeyWords;
    if w.i > 80 {
      StripeAdvances(key, seed, r, w);
      StripesReach(key, seed, r + 1, Stripe(key, w));
    } else {
      assert r == (|key| - 1) / 80;
    }
  }

  /** Where the walk stands after `q` of the single steps that follow `stripes` stripes. */
  ghost predicate AfterSteps(key: seq<u8>, merged: nat, stripes: nat, q: nat, w: Walk)
    requires |key| > 16 && 80 * stripes + 16 * q < |key|
  {
    var ws := KeyWords(key);
    && 10 * stripes + 2 * q <= |ws|
    && w.p == 80 * stripes && w.i == |key| - 80 * stripes
    && w.seed == Leftover(ws, 10 * stripes, merged, q)
    && w.log == Reads(key, Layout(|key|))[..10 * stripes + 2 * q]
  }

  lemma StepAdvances(key: seq<u8>, merged: nat, stripes: nat, q: nat, w: Walk, secret: u64)
    requires |key| > 16 && 80 * stripes + 16 * q + 16 < |key| && AfterSteps(key, merged, stripes, q, w)
    requires secret == if q < 2 then SECRET_2 else SECRET_1
    ensures w.p + 16 * q + 16 <= |key| && AfterSteps(key, merged, stripes, q + 1, Step(key, w, 16 * q, secret))
  {
    hide Pair, KeyWords, Layout, Reads, Fold;
    var log, k := Reads(key, Layout(|key|)), 5 * stripes + q;
    FrontPair(key, k);
    FoldIsFolded(Pair(key, 16 * k), secret, w.seed);
    assert log[..2 * k] + log[2 * k..2 * k + 2] == log[..2 * k + 2];
  }

  /** The nested steps: one for every 16 bytes that end before the key does. */
  lemma StepsReach(key: seq<u8>, merged: nat, stripes: nat, w: Walk)
    requires |key| > 16 && 80 * stripes < |key| <= 80 * stripes + 80 && AfterSteps(key, merged, stripes, 0, w)
    ensures w.p + w.i == |key| && w.i <= 80
    ensures 80 * stripes + 16 * ((w.i - 1) / 16) < |key|
    ensures AfterSteps(key, merged, stripes, (w.i - 1) / 16, Steps(key, w))
  {
    hide Step, AfterSteps;
    StepsFrame(key, merged, stripes, w);
    if w.i > 16 {
      StepAdvances(key, merged, stripes, 0, w, SECRET_2);
      var s1 := Step(key, w, 0, SECRET_2);
      StepsFrame(key, merged, stripes, w);
      if w.i > 32 {
        StepAdvances(key, merged, stripes, 1, s1, SECRET_2);
        var s2 := Step(key, s1, 16, SECRET_2);
        if w.i > 48 {
          StepAdvances(key, merged, stripes, 2, s2, SECRET_1);
          var s3 := Step(key, s2, 32, SECRET_1);
          if w.i > 64 {
            StepAdvances(key, merged, stripes, 3, s3, SECRET_1);
          }
        }
      }
    }
  }

  lemma StepsFrame(key: seq<u8>, merged: nat, stripes: nat, w: Walk)
    requires |key| > 16 && 80 * stripes < |key| && AfterSteps(key, merged, stripes, 0, w)
    ensures w.p == 80 * stripes && w.i == |key| - 80 * stripes
  {}

  lemma FinishIsFinished(a: u64, b: u64, seed: u64, i: u64)
    ensures Finish(a, b, seed, i) == Finished(a, b, seed, i)
  {}

  lemma WalkStarts(key: seq<u8>, seed: u64)
    requires |key| > 16
    ensures AfterStripes(key, seed, 0, StartWalk(key, seed))
  {
    hide Layout, Reads, KeyWords;
    assert Reads(key, Layout(|key|))[..0] == [];
  }

  /** The accumulators merged after the stripes, if there were any. */
  lemma StripesMerge(key: seq<u8>, seed: u64, w: Walk)
    requires |key| > 16 && AfterStripes(key, seed, (|key| - 1) / 80, w)
    ensures 80 * ((|key| - 1) / 80) < |key| && 10 * ((|key| - 1) / 80) <= |KeyWords(key)|
    ensures AfterSteps(key, Merged(KeyWords(key), seed, (|key| - 1) / 80), (|key| - 1) / 80, 0,
                       if |key| > 80 then w.(seed := Combine(w)) else w)
  {
    hide Layout, Reads, KeyWords;
    assert |key| > 80 <==> (|key| - 1) / 80 > 0;
  }

  lemma WholeWalk(key: seq<u8>, seed: u64)
    requires 16 < |key| < TWO_64
    ensures var n, stripes := |key|, (|key| - 1) / 80;
            && 80 * stripes < n && 10 * stripes <= |KeyWords(key)|
            && 80 * stripes + 16 * ((n - 1) / 16 - 5 * stripes) < n
            && (n - 1) / 16 >= 5 * stripes
            && AfterSteps(key, Merged(KeyWords(key), seed, stripes), stripes, (n - 1) / 16 - 5 * stripes, MicroWalk(key, seed))
  {
    hide Stripes, Steps, AfterStripes, AfterSteps, Merged, KeyWords, Combine;
    PairsBeforeTheLast(|key|);
    var w0 := StartWalk(key, seed);
    StripesKeepFrame(key, w0);
    WalkStarts(key, seed);
    StripesReach(key, seed, 0, w0);
    var w := Stripes(key, w0);
    StripesMerge(key, seed, w);
    StepsFrame(key, Merged(KeyWords(key), seed, (|key| - 1) / 80), (|key| - 1) / 80,
               if |key| > 80 then w.(seed := Combine(w)) else w);
    StepsReach(key, Merged(KeyWords(key), seed, (|key| - 1) / 80), (|key| - 1) / 80,
               if |key| > 80 then w.(seed := Combine(w)) else w);
  }

  lemma WalkResult(key: seq<u8>, merged: nat, stripes: nat, q: nat, w: Walk)
    requires |key| > 16 && 80 * stripes + 16 * q < |key| && AfterSteps(key, merged, stripes, q, w)
    ensures 10 * stripes + 2 * q <= |KeyWords(key)| == |Reads(key, Layout(|key|))|
    ensures w.i == |key| - 80 * stripes && w.seed == Leftover(KeyWords(key), 10 * stripes, merged, q)
    ensures w.log == Reads(key, Layout(|key|))[..10 * stripes + 2 * q]
  {
    hide Layout;
  }

  lemma MicroLongIsReference(key: seq<u8>, seed0: u64)
    requires 16 < |key| < TWO_64
    ensures Micro(key, seed0).log == Reads(key, Layout(|key|))
    ensures Micro(key, seed0).hash == Reference(KeyWords(key), |key|, seed0)
  {
    hide MicroWalk, Layout, Reads, KeyWords, Finish, Finished, Pair, Xor, Mix, Folded, StartSeed, Leftover, Merged, AfterSteps;
    var n, seed, stripes, pairs := |key|, StartSeed(seed0), (|key| - 1) / 80, (|key| - 1) / 16;
    var log, w := Reads(key, Layout(n)), MicroWalk(key, seed);
    SeedIs(seed0);
    WholeWalk(key, seed);
    WalkResult(key, Merged(KeyWords(key), seed, stripes), stripes, pairs - 5 * stripes, w);
    LastPair(key);
    assert log[..2 * pairs] + log[2 * pairs..] == log;
    FinishIsFinished(Xor64(Pair(key, n - 16)[0].word, w.i), Pair(key, n - 16)[1].word, w.seed, w.i);
  }

  lemma SeedIs(seed0: u64)
    ensures StartSeed(seed0) == Xor(seed0, Folded(Xor(seed0, 0x4b33a62ed433d4a3), 0x8bb84b93962eacc9))
  {}

  lemma MicroShortIsReference(key: seq<u8>, seed0: u64)
    requires |key| <= 16
    ensures Micro(key, seed0).log == Reads(key, Layout(|key|))
    ensures Micro(key, seed0).hash == Reference(KeyWords(key), |key|, seed0)
  {
    hide Finish, Finished, Xor, Mix, Folded, ReadAt, Reads, StartSeed;
    var n, seed := |key|, StartSeed(seed0);
    SeedIs(seed0);
    if n == 0 {
      FinishIsFinished(0, 0, seed, 0);
    } else if n < 4 {
      ShortReads(key);
      FinishIsFinished(Ends(ReadByte(key, 0), ReadByte(key, n - 1)), ReadByte(key, n / 2).word, seed, n);
    } else {
      MiddleReads(key, if n < 8 then 4 else 8);
      FinishIsFinished(ReadAt(key, 0, if n < 8 then 4 else 8).word, ReadAt(key, n - if n < 8 then 4 else 8, if n < 8 then 4 else 8).word,
                       Xor64(seed, n), n);
    }
  }

  lemma ShortReads(key: seq<u8>)
    requires 0 < |key| < 4
    ensures Reads(key, Layout(|key|)) == [ReadByte(key, 0), ReadByte(key, |key| - 1), ReadByte(key, |key| / 2)]
  {
    hide LittleEndian;
  }

  lemma MiddleReads(key: seq<u8>, width: nat)
    requires 4 <= |key| <= 16 && width == if |key| < 8 then 4 else 8
    ensures Reads(key, Layout(|key|)) == [ReadAt(key, 0, width), ReadAt(key, |key| - width, width)]
  {
    hide ReadAt;
  }

  /** The walk reads what the reference reads, in that order, and digests those words. */
  lemma MicroIsReference(key: seq<u8>, seed0: u64)
    requires |key| < TWO_64
    ensures Micro(key, seed0).log == Reads(key, Layout(|key|))
    ensures Micro(key, seed0).hash == Reference(Words(Micro(key, seed0).log), |key|, seed0)
  {
    hide Micro, Reference, Layout, Reads, Words;
    if |key| <= 16 { MicroShortIsReference(key, seed0); } else { MicroLongIsReference(key, seed0); }
  }

  // ---- nothing of the key is missed ----

  ghost predicate Covers(spans: seq<Span>, b: nat) {
    exists k :: 0 <= k < |spans| && spans[k].at <= b < spans[k].at + spans[k].width
  }

  lemma LayoutCovers(n: nat, b: nat)
    requires b < n
    ensures Covers(Layout(n), b)
  {
    var spans := Layout(n);
    if n < 4 {
      assert spans[0] == Span(0, 1) && spans[1] == Span(n - 1, 1) && spans[2] == Span(n / 2, 1);
    } else if n <= 16 {
      assert spans[0].at == 0 && spans[1].at + spans[1].width == n;
    } else {
      var pairs := (n - 1) / 16;
      var k := if b < 16 * pairs then b / 8 else if b < n - 8 then 2 * pairs else 2 * pairs + 1;
      assert spans[k].at <= b < spans[k].at + spans[k].width;
    }
  }

  /** Every read of the key is in bounds and every byte of it is read, whatever the length. */
  lemma MicroReadsExactlyTheKey(key: seq<u8>, seed0: u64, b: nat)
    requires |key| < TWO_64
    ensures var log := Micro(key, seed0).log;
            && (forall k :: 0 <= k < |log| ==>
                  && log[k].at + log[k].width <= |key| && log[k].width <= 8
                  && log[k].word == LittleEndian(key, log[k].at, log[k].width))
            && (b < |key| ==> exists k :: 0 <= k < |log| && log[k].at <= b < log[k].at + log[k].width)
  {
    hide Micro, Layout, LittleEndian;
    MicroIsReference(key, seed0);
    var spans, log := Layout(|key|), Micro(key, seed0).log;
    if b < |key| {
      LayoutCovers(|key|, b);
      var k :| 0 <= k < |spans| && spans[k].at <= b < spans[k].at + spans[k].width;
      assert log[k].at <= b < log[k].at + log[k].width;
    }
  }

  /** The words digested determine the key: two keys of the same length that give the same
      words are the same key, so no byte is left out of the digest, at any length. */
  lemma WordsDetermineKey(a: seq<u8>, b: seq<u8>, seedA: u64, seedB: u64)
    requires |a| == |b| < TWO_64
    requires Words(Micro(a, seedA).log) == Words(Micro(b, seedB).log)
    ensures a == b
  {
    hide Micro, Layout, LittleEndian;
    MicroIsReference(a, seedA);
    MicroIsReference(b, seedB);
    var spans, logA, logB := Layout(|a|), Micro(a, seedA).log, Micro(b, seedB).log;
    forall i | 0 <= i < |a| ensures a[i] == b[i] {
      LayoutCovers(|a|, i);
      var k :| 0 <= k < |spans| && spans[k].at <= i < spans[k].at + spans[k].width;
      assert logA[k].word == Words(logA)[k] == Words(logB)[k] == logB[k].word;
      LittleEndianInjective(a, b, spans[k].at, spans[k].width);
    }
  }

  // ---- the code ----

  method MixPair(key: seq<u8>, at: nat, secret: u64, acc: u64) returns (r: u64, pair: seq<Read>)
    requires at + 16 <= |key|
    ensures pair == Pair(key, at) && r == Fold(pair, secret, acc)
  {
    var x, y := ReadAt(key, at, 8), ReadAt(key, at + 8, 8);
    pair := [x, y];
    r := RapidMix(Xor64(x.word, secret), Xor64(y.word, acc));
  }

  /** The branch for at most 16 bytes: the two words `a` and `b`, and the seed. */
  method ReadShort(key: seq<u8>, seed0: u64) returns (a: u64, b: u64, seed: u64, log: seq<Read>)
    requires |key| <= 16
    ensures Digest(Finish(a, b, seed, |key|), log) == MicroShort(key, seed0)
  {
    hide Finish, LittleEndian;
    var len := |key|;
    a, b, seed, log := 0, 0, seed0, [];
    if len >= 4 {
      seed := Xor64(seed, len);
      if len >= 8 {
        var x, y := ReadAt(key, 0, 8), ReadAt(key, len - 8, 8);
        a, b, log := x.word, y.word, [x, y];
      } else {
        var x, y := ReadAt(key, 0, 4), ReadAt(key, len - 4, 4);
        a, b, log := x.word, y.word, [x, y];
      }
    } else if len > 0 {
      var x, y, z := ReadByte(key, 0), ReadByte(key, len - 1), ReadByte(key, len / 2);
      a, b, log := Ends(x, y), z.word, [x, y, z];
    }
  }

  /** The 80-byte loop over five accumulators. */
  method HashStripes(key: seq<u8>, seed0: u64) returns (w: Walk)
    requires 16 < |key| < TWO_64
    ensures w.p + w.i == |key| && w.i <= 80
    ensures var s := Stripes(key, StartWalk(key, seed0));
            w == if |key| > 80 then s.(seed := Combine(s)) else s
  {
    hide Fold, Mix, Xor64, Pair, LowHalf, HighHalf;
    w := StartWalk(key, seed0);
    if w.i > 80 {
      while w.i > 80
        invariant w.p + w.i == |key|
        invariant Stripes(key, w) == Stripes(key, StartWalk(key, seed0))
      {
        var seed, p0 := MixPair(key, w.p, SECRET_0, w.seed);
        var see1, p1 := MixPair(key, w.p + 16, SECRET_1, w.see1);
        var see2, p2 := MixPair(key, w.p + 32, SECRET_2, w.see2);
        var see3, p3 := MixPair(key, w.p + 48, SECRET_3, w.see3);
        var see4, p4 := MixPair(key, w.p + 64, SECRET_4, w.see4);
        w := Walk(w.p + 80, w.i - 80, seed, see1, see2, see3, see4, w.log + p0 + p1 + p2 + p3 + p4);
      }
      var seed := Xor64(w.seed, w.see1);
      var see2 := Xor64(w.see2, w.see3);
      seed := Xor64(seed, w.see4);
      w := w.(seed := Xor64(seed, see2));
    }
  }

  /** The nested 16-byte steps on the last 80 bytes or fewer. */
  method HashSteps(key: seq<u8>, w: Walk) returns (seed: u64, log: seq<Read>)
    requires w.p + w.i == |key| && w.i <= 80
    ensures var s := Steps(key, w); seed == s.seed && log == s.log && w.i == s.i
  {
    hide Fold, Pair;
    seed, log := w.seed, w.log;
    if w.i > 16 {
      var pair;
      seed, pair := MixPair(key, w.p, SECRET_2, seed);
      log := log + pair;
      if w.i > 32 {
        seed, pair := MixPair(key, w.p + 16, SECRET_2, seed);
        log := log + pair;
        if w.i > 48 {
          seed, pair := MixPair(key, w.p + 32, SECRET_1, seed);
          log := log + pair;
          if w.i > 64 {
            seed, pair := MixPair(key, w.p + 48, SECRET_1, seed);
            log := log + pair;
          }
        }
      }
    }
  }

  /** `rapidhashMicro_internal`, with its reads recorded: they are those of the layout for the
      length, and the hash is the reference digest of their words. */
  method RapidHashMicro(key: seq<u8>, seed0: u64) returns (hash: u64, log: seq<Read>)
    requires |key| < TWO_64
    ensures Digest(hash, log) == Micro(key, seed0)
    ensures log == Reads(key, Layout(|key|))
    ensures hash == Reference(Words(log), |key|, seed0)
  {
    hide Mix, Xor64, Finish, Stripes, Steps, MicroShort, Reference, Layout, Reads, Words;
    MicroIsReference(key, seed0);
    var m := RapidMix(Xor64(seed0, SECRET_2), SECRET_1);
    var seed := Xor64(seed0, m);
    var a: u64, b: u64, i: u64 := 0, 0, |key|;
    if |key| <= 16 {
      a, b, seed, log := ReadShort(key, seed);
      hash := FinishHash(a, b, seed, i);
    } else {
      var w := HashStripes(key, seed);
      i := w.i;
      seed, log := HashSteps(key, w);
      var x, y := ReadAt(key, w.p + i - 16, 8), ReadAt(key, w.p + i - 8, 8);
      a := Xor64(x.word, i);
      b := y.word;
      log := log + [x, y];
      hash := FinishHash(a, b, seed, i);
    }
  }

  method FinishHash(a: u64, b: u64, seed: u64, i: u64) returns (hash: u64)
    ensures hash == Finish(a, b, seed, i)
  {
    var x, y := Xor64(a, SECRET_1), Xor64(b, seed);
    var lo, hi := RapidMum(x, y);
    hash := RapidMix(Xor64(lo, SECRET_7), Xor64(Xor64(hi, SECRET_1), i));
  }
}
