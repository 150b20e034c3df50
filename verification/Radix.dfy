/**
  Printing and reading in bases 2 to 36 (lib/sp_bigint.c:3160-3300 and
  3753-4035): bit groups for powers of two, chunks of 10^9 for base 10, division
  by a power of the base otherwise. Digit strings are least significant digit
  first until the text is reversed.
 */
module Radix {
  import opened Limbs
  import opened Powers
  import opened Shifts
  import opened Knuth
  import opened Integers
  import opened MulMpz
  import opened DivMpz

  /** The value of a digit string in base b. */
  function DVal(ds: seq<int>, b: int): int {
    if ds == [] then 0 else DVal(ds[..|ds| - 1], b) + ds[|ds| - 1] * Power(b, |ds| - 1)
  }

  predicate Below(ds: seq<int>, b: int) {
    forall i :: 0 <= i < |ds| ==> 0 <= ds[i] < b
  }

  lemma DSnoc(ds: seq<int>, d: int, b: int)
    ensures DVal(ds + [d], b) == DVal(ds, b) + d * Power(b, |ds|)
  {
    assert (ds + [d])[..|ds|] == ds;
  }

  lemma {:induction false} DCons(d: int, ds: seq<int>, b: int)
    ensures DVal([d] + ds, b) == d + b * DVal(ds, b)
    decreases |ds|
  {
    hide Power;
    PowerStep(b, 0);
    if ds == [] {
      assert [d] + ds == [d];
      assert [d][..0] == [];
    } else {
      var n := |ds| - 1;
      DCons(d, ds[..n], b);
      assert ([d] + ds)[..n + 1] == [d] + ds[..n];
      PowerStep(b, n);
      DistL(b, DVal(ds[..n], b), ds[n] * Power(b, n));
      assert b * (ds[n] * Power(b, n)) == ds[n] * (b * Power(b, n));
    }
  }

  // ----- the one digit string without a leading zero -----

  function Canon(v: nat, b: nat): (ds: seq<int>)
    requires b >= 2
    ensures Below(ds, b) && (ds == [] <==> v == 0) && (ds != [] ==> ds[|ds| - 1] != 0)
  {
    if v == 0 then [] else
      assert v / b < v;
      var rest := Canon(v / b, b);
      assert rest == [] ==> v / b == 0 && v % b == v;
      [v % b] + rest
  }

  lemma CanonStep(v: nat, b: nat)
    requires b >= 2 && v > 0
    ensures 0 <= v / b < v && Canon(v, b) == [v % b] + Canon(v / b, b)
  {
  }

  lemma {:induction false} CanonValue(v: nat, b: nat)
    requires b >= 2
    ensures DVal(Canon(v, b), b) == v
  {
    if v > 0 {
      hide DVal, Canon;
      DivMod(v, b);
      CanonStep(v, b);
      CanonValue(v / b, b);
      DCons(v % b, Canon(v / b, b), b);
    }
  }

  lemma {:induction false} DNonNeg(ds: seq<int>, b: nat)
    requires b >= 2 && Below(ds, b)
    ensures DVal(ds, b) >= 0
    ensures ds != [] && ds[|ds| - 1] != 0 ==> DVal(ds, b) > 0
  {
    if ds != [] {
      var n := |ds| - 1;
      DNonNeg(ds[..n], b);
      PowerPositive(b, n);
      NonNeg(ds[n], Power(b, n));
      if ds[n] > 0 { MulLe(1, ds[n], Power(b, n)); }
    }
  }

  /** A digit string without a leading zero is determined by its value. */
  lemma {:induction false} CanonUnique(ds: seq<int>, b: nat, v: nat)
    requires b >= 2 && Below(ds, b) && DVal(ds, b) == v && (ds == [] || ds[|ds| - 1] != 0)
    ensures ds == Canon(v, b)
    decreases |ds|
  {
    if ds != [] {
      DNonNeg(ds, b);
      hide DVal;
      var d, rest := ds[0], ds[1..];
      assert ds == [d] + rest;
      DCons(d, rest, b);
      DNonNeg(rest, b);
      DivMod(v, b);
      FloorUnique(v, b, DVal(rest, b), d, v / b, v % b);
      CanonUnique(rest, b, v / b);
    }
  }

  lemma DivMod(d: int, b: int)
    requires b > 0
    ensures d == b * (d / b) + d % b && 0 <= d % b < b && (d >= 0 ==> d / b >= 0)
  {
  }

  /** Taking the lowest digit r off d = b * q + r and putting it on the string. */
  lemma PushParts(out: seq<int>, d: int, b: int, v: int, q: int, r: int)
    requires DVal(out, b) + d * Power(b, |out|) == v && d == b * q + r
    ensures DVal(out + [r], b) + q * Power(b, |out| + 1) == v
  {
    hide Power, DVal;
    var p := Power(b, |out|);
    DSnoc(out, r, b);
    PowerStep(b, |out|);
    PushArith(DVal(out, b), d, p, v, b, q, r, Power(b, |out| + 1));
  }

  lemma PushArith(x: int, d: int, p: int, v: int, b: int, q: int, r: int, pn: int)
    requires x + d * p == v && d == b * q + r && pn == b * p
    ensures x + r * p + q * pn == v
  {
    Dist(b * q, r, p);
    assert (b * q) * p == q * (b * p);
  }

  lemma PushDigit(out: seq<int>, d: int, b: int, v: int)
    requires b > 0 && DVal(out, b) + d * Power(b, |out|) == v
    ensures DVal(out + [d % b], b) + (d / b) * Power(b, |out| + 1) == v
  {
    hide Power, DVal;
    DivMod(d, b);
    PushParts(out, d, b, v, d / b, d % b);
  }

  lemma BelowSnoc(out: seq<int>, d: int, b: int)
    requires Below(out, b) && 0 <= d < b
    ensures Below(out + [d], b)
  {
  }

  // ----- bit groups -----

  lemma {:induction false} PowerOfBase(shift: nat, n: nat)
    ensures Power(Two(shift), n) == Two(shift * n)
  {
    hide Two;
    if n == 0 {
      TwoZero();
      PowerStep(Two(shift), 0);
      assert shift * 0 == 0;
    } else {
      PowerOfBase(shift, n - 1);
      PowerStep(Two(shift), n - 1);
      TwoAdd(shift, shift * (n - 1));
      assert shift + shift * (n - 1) == shift * n;
    }
  }

  /** Digits taken off the bit buffer while it holds at least `least` bits. */
  method DrainBits(out0: seq<int>, value0: nat, bits0: int, shift: nat, least: int, ghost v: int)
      returns (out: seq<int>, value: nat, bits: int)
    requires 1 <= shift <= 5 && 1 <= least <= shift && bits0 >= 0 && value0 < Two(bits0)
    requires Below(out0, Two(shift)) && DVal(out0, Two(shift)) + value0 * Power(Two(shift), |out0|) == v
    ensures bits < least && (least == shift ==> bits >= 0) && Below(out, Two(shift))
      && DVal(out, Two(shift)) + value * Power(Two(shift), |out|) == v
    ensures bits + shift * |out| == bits0 + shift * |out0| && (if bits >= 0 then value < Two(bits) else value == 0)
  {
    hide Two, Power;
    out, value, bits := out0, value0, bits0;
    while bits >= least
      invariant Below(out, Two(shift)) && DVal(out, Two(shift)) + value * Power(Two(shift), |out|) == v
      invariant bits + shift * |out| == bits0 + shift * |out0| && (least == shift ==> bits >= 0)
      invariant if bits >= 0 then value < Two(bits) else value == 0
      decreases bits
    {
      PushDigit(out, value, Two(shift), v);
      var digit := value % Two(shift);
      BelowSnoc(out, digit, Two(shift));
      Drained(value, bits, shift);
      assert shift * (|out| + 1) == shift * |out| + shift;
      out := out + [digit];
      value := value / Two(shift);
      bits := bits - shift;
    }
  }

  lemma Drained(value: nat, bits: nat, shift: nat)
    requires value < Two(bits) && shift > 0
    ensures value / Two(shift) >= 0
    ensures if bits >= shift then value / Two(shift) < Two(bits - shift) else value / Two(shift) == 0
  {
    hide Two;
    var t := Two(shift);
    assert value == t * (value / t) + value % t;
    if bits >= shift {
      TwoAdd(shift, bits - shift);
      if value / t >= Two(bits - shift) {
        MulLe(Two(bits - shift), value / t, t);
        assert false;
      }
    } else {
      TwoMono(bits, shift);
      if value / t >= 1 {
        MulLe(1, value / t, t);
        assert false;
      }
    }
  }

  /** One more limb in the bit buffer, above the bits that are left. */
  lemma Buffered(value: nat, d: Limb, bits: nat, shift: nat, n: nat, i: nat)
    requires value < Two(bits) && bits + shift * n == 32 * i
    ensures 0 <= value + d * Two(bits) < Two(bits + 32)
    ensures (value + d * Two(bits)) * Power(Two(shift), n) == value * Power(Two(shift), n) + d * Pw(i)
  {
    hide Two, Power, Pw;
    PowerOfBase(shift, n);
    NonNeg(shift, n);
    TwoPw(i);
    TwoAdd(bits, shift * n);
    TwoAdd(bits, 32);
    TwoLimb();
    var t, w := Two(bits), Two(shift * n);
    NonNeg(d, t);
    MulLe(d, BASE - 1, t);
    Dist(BASE, 1, t);
    assert t * BASE == BASE * t;
    Dist(value, d * t, w);
    Assoc(d, t, w);
  }

  /** Route 1: base 2^shift. */
  method BitGroups(p: seq<Limb>, shift: nat) returns (ds: seq<int>)
    requires 1 <= shift <= 5
    ensures Below(ds, Two(shift)) && DVal(ds, Two(shift)) == Val(p)
  {
    hide Two, Power, Val, Pw;
    ds := [];
    var value: nat, bits: int := 0, 0;
    TwoZero();
    ValEmpty(p[..0]);
    assert shift * 0 == 0;
    for i := 0 to |p|
      invariant Below(ds, Two(shift)) && DVal(ds, Two(shift)) + value * Power(Two(shift), |ds|) == Val(p[..i])
      invariant 0 <= bits < shift && value < Two(bits) && bits + shift * |ds| == 32 * i
    {
      ValTake(p, i);
      Buffered(value, p[i], bits, shift, |ds|, i);
      value := value + p[i] * Two(bits);
      bits := bits + 32;
      ds, value, bits := DrainBits(ds, value, bits, shift, shift, Val(p[..i + 1]));
    }
    assert p[..|p|] == p;
    ds, value, bits := DrainBits(ds, value, bits, shift, 1, Val(p));
    if bits >= 0 { TwoZero(); }
    assert value * Power(Two(shift), |ds|) == 0;
  }

  // ----- chunks of 10^9 -----

  const CHUNK: int := 1_000_000_000

  lemma ChunkPower()
    ensures Power(10, 9) == CHUNK
  {
    assert Power(10, 9) == CHUNK;
  }

  /** One limb folded into the chunks: all of them times 2^32, plus the limb. */
  method FoldLimb(c0: seq<int>, limb: Limb) returns (c: seq<int>)
    requires Below(c0, CHUNK)
    ensures Below(c, CHUNK) && DVal(c, CHUNK) == DVal(c0, CHUNK) * BASE + limb
  {
    hide Power;
    c := [];
    var hi: int := limb;
    PowerStep(CHUNK, 0);
    assert c0[..0] == [];
    for j := 0 to |c0|
      invariant |c| == j && Below(c, CHUNK) && 0 <= hi < BASE
      invariant DVal(c, CHUNK) + hi * Power(CHUNK, j) == DVal(c0[..j], CHUNK) * BASE + limb
    {
      var z := c0[j] * BASE + hi;
      FoldStep(DVal(c, CHUNK), hi, c0[j], DVal(c0[..j], CHUNK), Power(CHUNK, j), limb, z / CHUNK, z % CHUNK);
      DSnoc(c, z % CHUNK, CHUNK);
      DSnoc(c0[..j], c0[j], CHUNK);
      assert c0[..j + 1] == c0[..j] + [c0[j]];
      PowerStep(CHUNK, j);
      BelowSnoc(c, z % CHUNK, CHUNK);
      c := c + [z % CHUNK];
      hi := z / CHUNK;
    }
    assert c0[..|c0|] == c0;
    while hi > 0
      invariant Below(c, CHUNK) && 0 <= hi < BASE
      invariant DVal(c, CHUNK) + hi * Power(CHUNK, |c|) == DVal(c0, CHUNK) * BASE + limb
    {
      PushDigit(c, hi, CHUNK, DVal(c0, CHUNK) * BASE + limb);
      BelowSnoc(c, hi % CHUNK, CHUNK);
      c := c + [hi % CHUNK];
      hi := hi / CHUNK;
    }
  }

  lemma FoldStep(x: int, hi: int, d: int, y: int, p: int, limb: int, q: int, r: int)
    requires x + hi * p == y * BASE + limb && d * BASE + hi == CHUNK * q + r
    ensures (x + r * p) + q * (CHUNK * p) == (y + d * p) * BASE + limb
  {
    Dist(CHUNK * q, r, p);
    Dist(d * BASE, hi, p);
    assert (CHUNK * q) * p == q * (CHUNK * p);
    assert (d * BASE) * p == (d * p) * BASE;
    Dist(y, d * p, BASE);
  }

  /** mpz_base_convert_decimal. */
  method ToChunks(p: seq<Limb>) returns (c: seq<int>)
    ensures Below(c, CHUNK) && DVal(c, CHUNK) == Val(p)
  {
    hide Val;
    c := [];
    var i := |p|;
    ValEmpty(p[i..]);
    while i > 0
      invariant 0 <= i <= |p| && Below(c, CHUNK) && DVal(c, CHUNK) == Val(p[i..])
    {
      i := i - 1;
      assert p[i..] == [p[i]] + p[i + 1..];
      ValCons(p[i], p[i + 1..]);
      c := FoldLimb(c, p[i]);
    }
    assert p[0..] == p;
  }

  lemma PairParts(d: nat)
    ensures var u, t, q := d % 100 % 10, d % 100 / 10, d / 100;
      0 <= u < 10 && 0 <= t < 10 && q >= 0 && d == 10 * (10 * q + t) + u && (d >= 10 ==> q < d)
  {
  }

  /** Two digits at a time. */
  lemma PushPair(out: seq<int>, d: nat, v: int)
    requires Below(out, 10) && DVal(out, 10) + d * Power(10, |out|) == v
    ensures var r := out + [d % 100 % 10] + [d % 100 / 10];
      Below(r, 10) && DVal(r, 10) + (d / 100) * Power(10, |out| + 2) == v
  {
    hide Power, DVal;
    var u, t, q := d % 100 % 10, d % 100 / 10, d / 100;
    PairParts(d);
    PushParts(out, d, 10, v, 10 * q + t, u);
    PushParts(out + [u], 10 * q + t, 10, v, q, t);
  }

  /** Exactly nine digits of a chunk, after the digits below it. */
  method NineDigits(out0: seq<int>, chunk: int) returns (out: seq<int>)
    requires Below(out0, 10) && 0 <= chunk < CHUNK
    ensures |out| == |out0| + 9 && Below(out, 10) && DVal(out, 10) == DVal(out0, 10) + chunk * Power(10, |out0|)
  {
    hide Power, Below;
    out := out0;
    var d := chunk;
    ghost var v := DVal(out0, 10) + chunk * Power(10, |out0|);
    var limit := CHUNK;
    for j := 0 to 4
      invariant |out| == |out0| + 2 * j && Below(out, 10) && 0 <= d < limit
      invariant DVal(out, 10) + d * Power(10, |out|) == v
      invariant limit == if j == 0 then CHUNK else if j == 1 then 10000000 else if j == 2 then 100000
        else if j == 3 then 1000 else 10
    {
      PushPair(out, d, v);
      out := out + [d % 100 % 10] + [d % 100 / 10];
      d := d / 100;
      limit := limit / 100;
    }
    DSnoc(out, d, 10);
    BelowSnoc(out, d, 10);
    out := out + [d];
  }

  /** The top chunk, without leading zeros; 0 prints one zero. */
  method TopDigits(out0: seq<int>, chunk: int) returns (out: seq<int>)
    requires Below(out0, 10) && 0 <= chunk < CHUNK
    ensures Below(out, 10) && DVal(out, 10) == DVal(out0, 10) + chunk * Power(10, |out0|)
  {
    hide Power, Below;
    out := out0;
    var d := chunk;
    ghost var v := DVal(out0, 10) + chunk * Power(10, |out0|);
    while true
      invariant Below(out, 10) && d >= 0 && DVal(out, 10) + d * Power(10, |out|) == v
      decreases d
    {
      if d >= 10 {
        PushPair(out, d, v);
        out := out + [d % 100 % 10] + [d % 100 / 10];
        d := d / 100;
      } else {
        DSnoc(out, d, 10);
        BelowSnoc(out, d, 10);
        out := out + [d];
        break;
      }
      if d == 0 { break; }
    }
  }

  lemma {:induction false} ChunkPowers(i: nat)
    ensures Power(10, 9 * i) == Power(CHUNK, i)
  {
    hide Power;
    if i == 0 {
      PowerStep(10, 0);
      PowerStep(CHUNK, 0);
    } else {
      ChunkPowers(i - 1);
      PowerStep(CHUNK, i - 1);
      ChunkPower();
      PowerSum(10, 9, 9 * (i - 1));
    }
  }

  /** Route 2: base 10, by chunks (mpz_decimal_to_str). */
  method TenDigits(p: seq<Limb>) returns (ds: seq<int>)
    ensures Below(ds, 10) && DVal(ds, 10) == Val(p)
  {
    hide Power, Below, Val;
    var c := ToChunks(p);
    if |c| == 0 { DSnoc([], 0, 10); BelowZero(); return [] + [0]; }
    ds := [];
    BelowNone();
    assert c[..0] == [];
    for i := 0 to |c| - 1
      invariant |ds| == 9 * i && Below(ds, 10) && DVal(ds, 10) == DVal(c[..i], CHUNK)
    {
      ChunkRange(c, i);
      ChunkPowers(i);
      DSnoc(c[..i], c[i], CHUNK);
      assert c[..i + 1] == c[..i] + [c[i]];
      ds := NineDigits(ds, c[i]);
    }
    var n := |c| - 1;
    ChunkRange(c, n);
    ChunkPowers(n);
    DSnoc(c[..n], c[n], CHUNK);
    assert c == c[..n] + [c[n]];
    ds := TopDigits(ds, c[n]);
  }

  lemma ChunkRange(c: seq<int>, i: nat)
    requires Below(c, CHUNK) && i < |c|
    ensures 0 <= c[i] < CHUNK
  {
  }

  lemma BelowNone()
    ensures Below([], 10)
  {
  }

  lemma BelowZero()
    ensures Below([] + [0], 10)
  {
  }

  // ----- division by a power of the base -----

  /** base_limit, from base 3 on; 0 where the base is a power of two. */
  const LIMITS: seq<int> := [
    3486784401, 0, 1220703125, 2176782336, 1977326743, 0,
    3486784401, 1000000000, 2357947691, 429981696, 815730721, 1475789056,
    2562890625, 0, 410338673, 612220032, 893871739, 1280000000,
    1801088541, 2494357888, 3404825447, 191102976, 244140625, 308915776,
    387420489, 481890304, 594823321, 729000000, 887503681, 0,
    1291467969, 1544804416, 1838265625, 2176782336]

  predicate PowerOfTwoBase(base: int) {
    base == 2 || base == 4 || base == 8 || base == 16 || base == 32
  }

  /** The exponent of a table entry. */
  function LimitExp(base: int): nat {
    if base == 3 then 20 else if base == 5 then 13 else if base == 6 then 12 else if base == 7 then 11
    else if base == 9 then 10 else if base <= 11 then 9 else if base <= 15 then 8 else if base <= 23 then 7 else 6
  }

  lemma LowLimits(base: int)
    requires 3 <= base <= 15 && !PowerOfTwoBase(base)
    ensures LIMITS[base - 3] == Power(base, LimitExp(base)) && 0 < LIMITS[base - 3] < BASE
  {
    if base == 3 { assert Power(3, 10) == 59049; PowerSum(3, 10, 10); }
    if base == 5 { assert Power(5, 13) == 1220703125; }
    if base == 6 { assert Power(6, 12) == 2176782336; }
    if base == 7 { assert Power(7, 11) == 1977326743; }
    if base == 9 { assert Power(9, 10) == 3486784401; }
    if base == 10 { assert Power(10, 9) == 1000000000; }
    if base == 11 { assert Power(11, 9) == 2357947691; }
    if base == 12 { assert Power(12, 8) == 429981696; }
    if base == 13 { assert Power(13, 8) == 815730721; }
    if base == 14 { assert Power(14, 8) == 1475789056; }
    if base == 15 { assert Power(15, 8) == 2562890625; }
  }

  lemma HighLimits(base: int)
    requires 16 <= base <= 23 && !PowerOfTwoBase(base)
    ensures LIMITS[base - 3] == Power(base, LimitExp(base)) && 0 < LIMITS[base - 3] < BASE
  {
    if base == 17 { assert Power(17, 7) == 410338673; }
    if base == 18 { assert Power(18, 7) == 612220032; }
    if base == 19 { assert Power(19, 7) == 893871739; }
    if base == 20 { assert Power(20, 7) == 1280000000; }
    if base == 21 { assert Power(21, 7) == 1801088541; }
    if base == 22 { assert Power(22, 7) == 2494357888; }
    if base == 23 { assert Power(23, 7) == 3404825447; }
  }

  lemma TopLimits(base: int)
    requires 24 <= base <= 36 && !PowerOfTwoBase(base)
    ensures LIMITS[base - 3] == Power(base, LimitExp(base)) && 0 < LIMITS[base - 3] < BASE
  {
    if base == 24 { assert Power(24, 6) == 191102976; }
    if base == 25 { assert Power(25, 6) == 244140625; }
    if base == 26 { assert Power(26, 6) == 308915776; }
    if base == 27 { assert Power(27, 6) == 387420489; }
    if base == 28 { assert Power(28, 6) == 481890304; }
    if base == 29 { assert Power(29, 6) == 594823321; }
    if base == 30 { assert Power(30, 6) == 729000000; }
    if base == 31 { assert Power(31, 6) == 887503681; }
    if base == 33 { assert Power(33, 6) == 1291467969; }
    if base == 34 { assert Power(34, 6) == 1544804416; }
    if base == 35 { assert Power(35, 6) == 1838265625; }
    if base == 36 { assert Power(36, 6) == 2176782336; }
  }

  /** The digits of a remainder below b2 = base^k: exactly k of them. */
  method EmitDigits(out0: seq<int>, a0: nat, b2: int, base: nat, ghost k: nat) returns (out: seq<int>)
    requires base >= 2 && Below(out0, base) && b2 == Power(base, k) && a0 < b2
    ensures Below(out, base) && |out| == |out0| + k && DVal(out, base) == DVal(out0, base) + a0 * Power(base, |out0|)
  {
    hide Power, Below, DVal;
    out := out0;
    var a, b := a0, b2;
    ghost var r: nat, v: int := k, DVal(out0, base) + a0 * Power(base, |out0|);
    PowerStep(base, 0);
    while b >= base
      invariant Below(out, base) && |out| + r == |out0| + k && b == Power(base, r) && 0 <= a < b
      invariant DVal(out, base) + a * Power(base, |out|) == v
      decreases r
    {
      assert r > 0 by { if r == 0 { assert false; } }
      PowerStep(base, r - 1);
      PushDigit(out, a, base, v);
      NextDigit(a, b, base, Power(base, r - 1));
      BelowSnoc(out, a % base, base);
      out := out + [a % base];
      a := a / base;
      b := b / base;
      r := r - 1;
    }
    if r > 0 {
      PowerStep(base, r - 1);
      PowerPositive(base, r - 1);
      MulLe(1, Power(base, r - 1), base);
      assert false;
    }
  }

  lemma NextDigit(a: int, b: int, base: int, p: int)
    requires base >= 2 && b == base * p && 0 <= a < b
    ensures b / base == p && 0 <= a / base < p && 0 <= a % base < base
  {
    DivMod(a, base);
    DivMod(b, base);
    FloorUnique(b, base, p, 0, b / base, b % base);
    if a / base >= p {
      MulLe(p, a / base, base);
      assert false;
    }
  }

  lemma StillHeld(t: int, t': int, b2: int, a: int, x: int, p: int, v: int, pn: int)
    requires t == t' * b2 + a && x + t * p == v && pn == b2 * p
    ensures (x + a * p) + t' * pn == v
  {
    Dist(t' * b2, a, p);
    assert (t' * b2) * p == t' * (b2 * p);
  }

  lemma Smaller(t: nat, t': nat, b2: int, a: nat)
    requires t == t' * b2 + a && t' > 0 && b2 >= 2
    ensures t' < t
  {
    MulLt(1, b2, t');
  }

  /** Route 3: the other bases. */
  method PowerDigits(p: seq<Limb>, base: nat) returns (ds: seq<int>)
    requires 3 <= base <= 36 && !PowerOfTwoBase(base)
    ensures Below(ds, base) && DVal(ds, base) == Val(p)
  {
    hide Power, Below, DVal, Val;
    if base <= 15 { LowLimits(base); } else if base <= 23 { HighLimits(base); } else { TopLimits(base); }
    var b2, t := LIMITS[base - 3], p;
    ghost var k := LimitExp(base);
    ds := [];
    EmptyDigits(base);
    PowerStep(base, 0);
    LimitBig(base, k);
    while true
      invariant Below(ds, base) && DVal(ds, base) + Val(t) * Power(base, |ds|) == Val(p)
      decreases Val(t)
    {
      ghost var T := Val(t);
      var a;
      t, a := DivByLimb(t, b2);
      PowerSum(base, k, |ds|);
      StillHeld(T, Val(t), b2, a, DVal(ds, base), Power(base, |ds|), Val(p), Power(base, k + |ds|));
      ds := EmitDigits(ds, a, b2, base, k);
      var zero := IsZero(t);
      if zero { break; }
      Smaller(T, Val(t), b2, a);
    }
  }

  lemma EmptyDigits(base: int)
    ensures Below([], base) && DVal([], base) == 0
  {
  }

  lemma LimitBig(base: int, k: nat)
    requires base >= 2 && k > 0
    ensures Power(base, k) >= 2
  {
    hide Power;
    PowerStep(base, k - 1);
    PowerPositive(base, k - 1);
    MulLe(1, Power(base, k - 1), base);
  }

  // ----- the text -----

  function DigitChar(d: int): char
    requires 0 <= d < 36
  {
    if d < 10 then '0' + d as char else 'a' + (d - 10) as char
  }

  /** The text of a digit string, most significant digit first. */
  function Text(ds: seq<int>): string
    requires Below(ds, 36)
  {
    if ds == [] then "" else [DigitChar(ds[|ds| - 1])] + Text(ds[..|ds| - 1])
  }

  /** What mpz_get_str answers: a zero with a nonzero sign loses its only digit. */
  function Printed(sn: int, v: nat, b: nat): string
    requires 2 <= b <= 36
  {
    if sn == 0 then "0" else (if sn < 0 then "-" else "") + Text(Canon(v, b))
  }

  method StripZeros(ds: seq<int>, b: nat) returns (r: seq<int>)
    requires b >= 2 && Below(ds, b)
    ensures Below(r, b) && DVal(r, b) == DVal(ds, b) && (r == [] || r[|r| - 1] != 0)
  {
    r := ds;
    while |r| > 0 && r[|r| - 1] == 0
      invariant Below(r, b) && DVal(r, b) == DVal(ds, b)
      decreases |r|
    {
      r := r[..|r| - 1];
    }
  }

  /** Characters in place of digits, the sign at the end, and the whole reversed by swaps. */
  method Layout(ds: seq<int>, neg: bool) returns (s: string)
    requires Below(ds, 36)
    ensures s == (if neg then "-" else "") + Text(ds)
  {
    hide Text, DigitChar;
    var u: string := seq(|ds|, i requires 0 <= i < |ds| && Below(ds, 36) => DigitChar(ds[i]));
    if neg { u := u + "-"; }
    s := u;
    var i, j := 0, |u| - 1;
    while i < j
      invariant 0 <= i <= j + 1 && i + j == |u| - 1 && |s| == |u|
      invariant forall k :: 0 <= k < i || j < k < |u| ==> s[k] == u[|u| - 1 - k]
      invariant forall k :: i <= k <= j ==> s[k] == u[k]
    {
      s := s[i := s[j]][j := s[i]];
      i, j := i + 1, j - 1;
    }
    TextAt(ds);
    ghost var t := (if neg then "-" else "") + Text(ds);
    assert |s| == |t| && forall k :: 0 <= k < |s| ==> s[k] == t[k];
  }

  lemma {:induction false} TextAt(ds: seq<int>)
    requires Below(ds, 36)
    ensures |Text(ds)| == |ds| && forall k :: 0 <= k < |ds| ==> Text(ds)[k] == DigitChar(ds[|ds| - 1 - k])
  {
    if ds != [] {
      TextAt(ds[..|ds| - 1]);
    }
  }

  // ----- reading -----

  /** The value of a digit character, or -1. */
  function DigitOf(c: char): int {
    if '0' <= c <= '9' then c as int - '0' as int
    else if 'A' <= c <= 'Z' then c as int - 'A' as int + 10
    else if 'a' <= c <= 'z' then c as int - 'a' as int + 10
    else -1
  }

  predicate Readable(s: string, b: int) {
    forall i :: 0 <= i < |s| ==> s[i] == '_' || 0 <= DigitOf(s[i]) < b
  }

  /** The digits of a text, least significant first, underscores left out. */
  function TextDigits(s: string): seq<int> {
    if s == "" then []
    else TextDigits(s[1..]) + if s[0] == '_' then [] else [DigitOf(s[0])]
  }

  function Unsigned(s: string): string {
    if s != "" && (s[0] == '-' || s[0] == '+') then s[1..] else s
  }

  function SignOf(s: string): int {
    if s != "" && s[0] == '-' then -1 else 1
  }

  /** The integer a text stands for. */
  function ReadValue(s: string, b: int): int {
    SignOf(s) * DVal(TextDigits(Unsigned(s)), b)
  }

  lemma {:induction false} TextSnoc(s: string, c: char)
    ensures TextDigits(s + [c]) == (if c == '_' then [] else [DigitOf(c)]) + TextDigits(s)
    decreases |s|
  {
    if s == "" {
      assert s + [c] == [c];
      assert [c][1..] == "";
    } else {
      TextSnoc(s[1..], c);
      assert (s + [c])[1..] == s[1..] + [c];
    }
  }

  /** mpz_mul_int for a positive factor. */
  method MulInt(x: Mpz, n: Limb)
    requires x.Ok() && x.sn >= 0 && n > 0
    modifies x
    ensures x.Ok() && x.Mag() == old(x.Mag()) * n && x.alloc == old(x.alloc)
    ensures if old(x.sn) == 0 then x.sn == 0 && x.p == (if x.alloc then [0] else [])
      else x.sn == (if x.p == [] then 0 else 1)
  {
    hide Val;
    if x.sn == 0 {
      SetZero(x);
      return;
    }
    var r := MulByLimb(x.p, n);
    x.p, x.sn := r, 1;
    Trim(x);
    TrimOk(r, 1, x.p, x.sn);
    ValEmpty(x.p);
  }

  /** A number being built: no buffer until the first nonzero digit, positive afterwards. */
  ghost predicate Building(x: Mpz)
    reads x
  {
    x.Ok() && ((x.sn == 0 && x.p == [] && !x.alloc) || (x.sn == 1 && x.Mag() > 0))
  }

  method HornerStep(x: Mpz, base: nat, k: nat)
    requires Building(x) && 2 <= base <= 36 && k < base
    modifies x
    ensures Building(x) && x.Mag() == old(x.Mag()) * base + k
  {
    hide Val;
    ghost var v := x.Mag();
    ValEmpty(x.p);
    MulInt(x, base);
    if v > 0 { MulLe(1, v, base); }
    ValEmpty(x.p);
    AddInt(x, k);
    ValEmpty(x.p);
  }

  /** The digits of any base but 10, left to right. */
  method ReadDigits(x: Mpz, s: string, base: nat) returns (ok: bool)
    requires Building(x) && x.Mag() == 0 && 2 <= base <= 36
    modifies x
    ensures ok == Readable(s, base)
    ensures ok ==> Building(x) && x.Mag() == DVal(TextDigits(s), base)
  {
    hide Val, DVal, Building;
    assert s[..0] == "";
    EmptyDigits(base);
    for i := 0 to |s|
      invariant Building(x) && x.Mag() == DVal(TextDigits(s[..i]), base)
      invariant forall j :: 0 <= j < i ==> s[j] == '_' || 0 <= DigitOf(s[j]) < base
    {
      assert s[..i + 1] == s[..i] + [s[i]];
      TextSnoc(s[..i], s[i]);
      if s[i] == '_' {
        assert [] + TextDigits(s[..i]) == TextDigits(s[..i]);
        continue;
      }
      var k := DigitOf(s[i]);
      if k < 0 || k >= base { return false; }
      DCons(k, TextDigits(s[..i]), base);
      HornerStep(x, base, k);
    }
    assert s[..|s|] == s;
    return true;
  }

  lemma ChunkSlot(n: nat, k: nat)
    ensures Power(10, 9 * n + k) == Power(CHUNK, n) * Power(10, k)
  {
    hide Power;
    ChunkPowers(n);
    PowerSum(10, 9 * n, k);
  }

  /** One more digit in the chunk being filled. */
  lemma ChunkDigit(low: int, chunk: int, pc: int, m: int, total: int, d: int, place: int)
    requires low + chunk * pc == total && place == pc * m
    ensures low + (chunk + d * m) * pc == total + d * place
  {
    Dist(chunk, d * m, pc);
    assert (d * m) * pc == d * (pc * m);
  }

  /** mpz_str_to_decimal: nine digits at a time, right to left. */
  method ReadChunks(s: string) returns (c: seq<int>)
    requires Readable(s, 10)
    ensures Below(c, CHUNK) && DVal(c, CHUNK) == DVal(TextDigits(s), 10)
  {
    hide Power, DVal;
    c := [];
    var pos, k, chunk, mult := |s| - 1, 0, 0, 1;
    assert s[|s|..] == "";
    EmptyDigits(10);
    EmptyDigits(CHUNK);
    PowerStep(10, 0);
    PowerStep(CHUNK, 0);
    while pos >= 0
      invariant -1 <= pos < |s| && 0 <= k < 9 && Below(c, CHUNK) && mult == Power(10, k) && 0 <= chunk < mult
      invariant |TextDigits(s[pos + 1..])| == 9 * |c| + k
      invariant DVal(c, CHUNK) + chunk * Power(CHUNK, |c|) == DVal(TextDigits(s[pos + 1..]), 10)
      decreases pos
    {
      var ch := s[pos];
      assert s[pos..][1..] == s[pos + 1..] && s[pos..][0] == ch;
      ghost var seen := TextDigits(s[pos + 1..]);
      pos := pos - 1;
      if ch == '_' {
        assert seen + [] == seen;
        continue;
      }
      var digit := DigitOf(ch);
      DSnoc(seen, digit, 10);
      ChunkSlot(|c|, k);
      ChunkDigit(DVal(c, CHUNK), chunk, Power(CHUNK, |c|), mult, DVal(seen, 10), digit, Power(10, |seen|));
      PowerStep(10, k);
      DigitRoom(chunk, digit, mult);
      chunk := chunk + digit * mult;
      mult := mult * 10;
      k := k + 1;
      if k == 9 {
        ChunkPower();
        DSnoc(c, chunk, CHUNK);
        BelowSnoc(c, chunk, CHUNK);
        c := c + [chunk];
        chunk, mult, k := 0, 1, 0;
      }
    }
    assert s[0..] == s;
    if k > 0 {
      SmallChunk(k);
      DSnoc(c, chunk, CHUNK);
      BelowSnoc(c, chunk, CHUNK);
      c := c + [chunk];
    }
  }

  lemma DigitRoom(chunk: int, d: int, m: int)
    requires 0 <= chunk < m && 0 <= d < 10
    ensures 0 <= chunk + d * m < m * 10
  {
    NonNeg(d, m);
    MulLe(d, 9, m);
  }

  lemma SmallChunk(k: nat)
    requires k < 9
    ensures Power(10, k) <= CHUNK
  {
    ChunkPower();
    PowerSum(10, k, 9 - k);
    PowerPositive(10, k);
    PowerPositive(10, 9 - k);
    MulLe(1, Power(10, 9 - k), Power(10, k));
  }

  /** All limbs times 10^9, plus a chunk. */
  method FoldChunk(l0: seq<Limb>, d: int) returns (l: seq<Limb>)
    requires 0 <= d < CHUNK && (l0 == [] || l0[|l0| - 1] != 0)
    ensures Val(l) == Val(l0) * CHUNK + d && (l == [] || l[|l| - 1] != 0)
  {
    hide Val, Pw;
    l := [];
    var carry := d;
    ValEmpty(l);
    ValEmpty(l0[..0]);
    PwFirst();
    for j := 0 to |l0|
      invariant |l| == j && 0 <= carry < BASE
      invariant Val(l) + carry * Pw(j) == Val(l0[..j]) * CHUNK + d
      invariant j > 0 && l0[j - 1] != 0 && carry == 0 ==> l[j - 1] != 0
    {
      var z: int := l0[j] * CHUNK + carry;
      ValTake(l0, j);
      LimbStep(Val(l), carry, l0[j], Val(l0[..j]), Pw(j), d, z / BASE, z % BASE);
      ValSnoc(l, z % BASE);
      PwNext(j);
      l := l + [z % BASE];
      carry := z / BASE;
    }
    assert l0[..|l0|] == l0;
    if carry > 0 {
      ValSnoc(l, carry);
      l := l + [carry];
    }
  }

  lemma LimbStep(x: int, carry: int, d: int, y: int, p: int, c: int, q: int, r: int)
    requires x + carry * p == y * CHUNK + c && d * CHUNK + carry == BASE * q + r
    ensures (x + r * p) + q * (BASE * p) == (y + d * p) * CHUNK + c
  {
    Dist(BASE * q, r, p);
    Dist(d * CHUNK, carry, p);
    assert (BASE * q) * p == q * (BASE * p);
    assert (d * CHUNK) * p == (d * p) * CHUNK;
    Dist(y, d * p, CHUNK);
  }

  /** mpz_decimal_to_binary. */
  method FromChunks(c: seq<int>) returns (l: seq<Limb>)
    requires Below(c, CHUNK)
    ensures Val(l) == DVal(c, CHUNK) && (l == [] || l[|l| - 1] != 0)
  {
    hide Val, DVal;
    l := [];
    ValEmpty(l);
    EmptyDigits(CHUNK);
    var i := |c|;
    assert c[i..] == [];
    while i > 0
      invariant 0 <= i <= |c| && Val(l) == DVal(c[i..], CHUNK) && (l == [] || l[|l| - 1] != 0)
    {
      i := i - 1;
      assert c[i..] == [c[i]] + c[i + 1..];
      DCons(c[i], c[i + 1..], CHUNK);
      l := FoldChunk(l, c[i]);
    }
    assert c[0..] == c;
  }

  /** mpz_init_set_str: false is the error return. */
  method SetStr(x: Mpz, s: string, base: nat) returns (ok: bool)
    requires 2 <= base <= 36
    modifies x
    ensures ok == Readable(Unsigned(s), base)
    ensures ok ==> x.Ok() && x.Value() == ReadValue(s, base) && (x.sn == 0 <==> x.Mag() == 0)
  {
    hide Val, DVal;
    x.sn, x.p, x.alloc := 0, [], false;
    ValEmpty(x.p);
    var sn, t := SignOf(s), Unsigned(s);
    if base == 10 {
      for i := 0 to |t|
        invariant forall j :: 0 <= j < i ==> t[j] == '_' || 0 <= DigitOf(t[j]) < 10
      {
        if t[i] != '_' && (t[i] < '0' || t[i] > '9') { return false; }
      }
      var c := ReadChunks(t);
      if |c| > 0 {
        var l := FromChunks(c);
        TopNonzeroValue(l);
        x.p, x.alloc := l, true;
        x.sn := if |l| == 0 then 0 else sn;
      } else {
        EmptyDigits(CHUNK);
      }
    } else {
      ok := ReadDigits(x, t, base);
      if !ok { return; }
      TopNonzeroValue(x.p);
      x.sn := if |x.p| == 0 then 0 else sn;
    }
    ValEmpty(x.p);
    return true;
  }

  lemma TopNonzeroValue(l: seq<Limb>)
    ensures l != [] && l[|l| - 1] != 0 ==> Val(l) > 0
    ensures l == [] ==> Val(l) == 0
  {
    if l != [] && l[|l| - 1] != 0 { ValTop(l); }
  }

  // ----- round trip -----

  lemma CharRoundTrip(d: int)
    requires 0 <= d < 36
    ensures DigitOf(DigitChar(d)) == d && DigitChar(d) != '_' && DigitChar(d) != '-' && DigitChar(d) != '+'
  {
  }

  lemma {:induction false} TextRoundTrip(ds: seq<int>, b: int)
    requires 2 <= b <= 36 && Below(ds, b)
    ensures Below(ds, 36) && TextDigits(Text(ds)) == ds && Readable(Text(ds), b)
    ensures Text(ds) != "" ==> Text(ds)[0] != '-' && Text(ds)[0] != '+'
  {
    if ds != [] {
      var n := |ds| - 1;
      TextRoundTrip(ds[..n], b);
      CharRoundTrip(ds[n]);
      assert Text(ds)[1..] == Text(ds[..n]);
      assert ds[..n] + [ds[n]] == ds;
    }
  }

  /** What the direct routes print is read back, in every base, for every length and sign. */
  lemma RoundTrip(sn: int, v: nat, b: nat)
    requires 2 <= b <= 36 && -1 <= sn <= 1 && (sn == 0 <==> v == 0)
    ensures var s := Printed(sn, v, b); Readable(Unsigned(s), b) && ReadValue(s, b) == sn * v
    ensures sn != 0 ==> var t := Unsigned(Printed(sn, v, b)); t != "" && t[0] != '0'
  {
    hide DVal, Canon, Text, TextDigits, Unsigned, SignOf, DigitOf, Readable;
    if sn == 0 {
      ZeroText(b);
    } else {
      CanonValue(v, b);
      NonzeroText(sn < 0, Canon(v, b), b);
    }
  }

  lemma ZeroText(b: nat)
    requires b >= 2
    ensures Readable(Unsigned("0"), b) && ReadValue("0", b) == 0
  {
    hide DVal;
    assert "0"[1..] == "";
    assert TextDigits("0") == [0];
    DSnoc([], 0, b);
    EmptyDigits(b);
    assert [] + [0] == [0];
  }

  lemma SignedText(neg: bool, ds: seq<int>, b: nat)
    requires 2 <= b <= 36 && Below(ds, b)
    ensures Below(ds, 36)
    ensures var s := (if neg then "-" else "") + Text(ds);
      && SignOf(s) == (if neg then -1 else 1) && Unsigned(s) == Text(ds) && TextDigits(Text(ds)) == ds
      && Readable(Text(ds), b)
  {
    hide DigitOf, DigitChar;
    TextRoundTrip(ds, b);
    var s := (if neg then "-" else "") + Text(ds);
    if neg {
      assert s[1..] == Text(ds);
    } else {
      assert s == Text(ds);
    }
  }

  lemma NonzeroText(neg: bool, ds: seq<int>, b: nat)
    requires 2 <= b <= 36 && Below(ds, b) && ds != [] && ds[|ds| - 1] != 0
    ensures Below(ds, 36) && Text(ds) != "" && Text(ds)[0] != '0'
    ensures var s := (if neg then "-" else "") + Text(ds);
      SignOf(s) == (if neg then -1 else 1) && Unsigned(s) == Text(ds) && TextDigits(Text(ds)) == ds
        && Readable(Text(ds), b)
  {
    hide DigitOf, DigitChar;
    SignedText(neg, ds, b);
    TextAt(ds);
    CharZero(ds[|ds| - 1]);
  }

  lemma CharZero(d: int)
    requires 0 < d < 36
    ensures DigitChar(d) != '0'
  {
  }

  /** The direct routes answer the empty text for a zero with the sign 1, and for nothing else. */
  lemma PrintedEmpty(sn: int, v: nat, b: nat)
    requires 2 <= b <= 36 && -1 <= sn <= 1
    ensures Printed(sn, v, b) == "" <==> sn == 1 && v == 0
  {
    hide Canon;
    if sn == 1 && v > 0 {
      NonzeroText(false, Canon(v, b), b);
    }
  }

  // ----- what the characters mean, without the functions above -----

  const LOWER: string := "0123456789abcdefghijklmnopqrstuvwxyz"
  const UPPER: string := "0123456789ABCDEFGHIJKLMNOPQRSTUVWXYZ"

  /** A digit is written as its character in the table, and read in either case. */
  lemma DigitTable(d: int)
    requires 0 <= d < 36
    ensures DigitChar(d) == LOWER[d]
    ensures DigitOf(LOWER[d]) == d && DigitOf(UPPER[d]) == d
  {
    if d < 10 { Numerals(d); } else if d < 18 { LettersAH(d); } else if d < 27 { LettersIQ(d); } else { LettersRZ(d); }
  }

  lemma Numerals(d: int)
    requires 0 <= d < 10
    ensures DigitChar(d) == LOWER[d]
    ensures DigitOf(LOWER[d]) == d && DigitOf(UPPER[d]) == d
  {
  }

  lemma LettersAH(d: int)
    requires 10 <= d < 18
    ensures DigitChar(d) == LOWER[d]
    ensures DigitOf(LOWER[d]) == d && DigitOf(UPPER[d]) == d
  {
  }

  lemma LettersIQ(d: int)
    requires 18 <= d < 27
    ensures DigitChar(d) == LOWER[d]
    ensures DigitOf(LOWER[d]) == d && DigitOf(UPPER[d]) == d
  {
  }

  lemma LettersRZ(d: int)
    requires 27 <= d < 36
    ensures DigitChar(d) == LOWER[d]
    ensures DigitOf(LOWER[d]) == d && DigitOf(UPPER[d]) == d
  {
  }

  /** No other character is a digit. */
  lemma OnlyDigits(c: char)
    requires DigitOf(c) >= 0
    ensures DigitOf(c) < 36
    ensures c == LOWER[DigitOf(c)] || c == UPPER[DigitOf(c)]
  {
    var d := DigitOf(c);
    DigitTable(d);
    if 'A' <= c <= 'Z' {
      UpperCase(c, d);
    }
  }

  lemma UpperCase(c: char, d: int)
    requires 'A' <= c <= 'Z' && d == DigitOf(c)
    ensures 10 <= d < 36 && c == UPPER[d]
  {
  }

  /** The digit of v at place i. */
  function DigitAt(v: nat, b: nat, i: nat): (d: int)
    requires b >= 2
    ensures 0 <= d < b
  {
    PowerPositive(b, i);
    (v / Power(b, i)) % b
  }

  lemma DivTwice(v: nat, b: nat, p: nat)
    requires b > 0 && p > 0
    ensures b * p > 0 && (v / b) / p == v / (b * p)
  {
    var q, r := v / b, v % b;
    var h, l := q / p, q % p;
    DivMod(v, b);
    DivMod(q, p);
    DistL(b, p * h, l);
    Assoc(b, p, h);
    MulLe(l + 1, p, b);
    assert (l + 1) * b == b * l + b && p * b == b * p;
    NonNeg(b, l);
    QuotientIs(v, b * p, h, b * l + r);
  }

  lemma {:induction false} CanonAt(v: nat, b: nat, i: nat)
    requires b >= 2 && i < |Canon(v, b)|
    ensures Canon(v, b)[i] == DigitAt(v, b, i)
    decreases i
  {
    hide Power;
    PowerStep(b, 0);
    if i > 0 {
      CanonAt(v / b, b, i - 1);
      PowerPositive(b, i - 1);
      DivTwice(v, b, Power(b, i - 1));
      PowerStep(b, i - 1);
    }
  }

  /** The number of digits is the least that is enough. */
  lemma {:induction false} CanonSize(v: nat, b: nat)
    requires b >= 2 && v > 0
    ensures var n := |Canon(v, b)|; n > 0 && Power(b, n - 1) <= v < Power(b, n)
  {
    hide Power, Canon;
    CanonStep(v, b);
    var q := v / b;
    if q > 0 { CanonSize(q, b); }
    DivMod(v, b);
    SizeUp(v, b, q, |Canon(q, b)|);
  }

  lemma SizeUp(v: nat, b: nat, q: nat, m: nat)
    requires b >= 2 && v > 0 && b * q <= v < b * q + b
    requires if q == 0 then m == 0 else m > 0 && Power(b, m - 1) <= q < Power(b, m)
    ensures Power(b, m) <= v < Power(b, m + 1)
  {
    hide Power;
    PowerStep(b, 0);
    PowerStep(b, m);
    if q > 0 {
      PowerStep(b, m - 1);
      SizeStep(v, b, q, Power(b, m - 1), Power(b, m));
    }
  }

  lemma SizeStep(v: nat, b: nat, q: nat, lo: int, hi: int)
    requires b * q <= v < b * q + b && lo <= q < hi
    ensures b * lo <= v < b * hi
  {
    MulLe(lo, q, b);
    MulLe(q + 1, hi, b);
    assert lo * b == b * lo && hi * b == b * hi && (q + 1) * b == b * q + b;
  }

  /**
    The text of a number that is not zero: a minus sign for a negative one, then
    the characters of its digits from the highest place to the lowest.
   */
  lemma PrintedText(sn: int, v: nat, b: nat)
    requires 2 <= b <= 36 && (sn == 1 || sn == -1) && v > 0
    ensures var s := Printed(sn, v, b); var m := if sn == -1 then 1 else 0; var n := |s| - m;
      && n > 0 && Power(b, n - 1) <= v < Power(b, n)
      && (sn == -1 ==> s[0] == '-')
      && forall k :: m <= k < |s| ==> s[k] == LOWER[DigitAt(v, b, |s| - 1 - k)]
  {
    hide Power, DigitChar, DigitAt, Canon, Text;
    var ds := Canon(v, b);
    CanonSize(v, b);
    TextAt(ds);
    TextIs(v, b);
  }

  lemma TextIs(v: nat, b: nat)
    requires 2 <= b <= 36
    ensures var ds := Canon(v, b); var t := Text(ds);
      |t| == |ds| && forall k :: 0 <= k < |t| ==> t[k] == LOWER[DigitAt(v, b, |t| - 1 - k)]
  {
    hide Power, DigitAt, Canon, Text;
    TextAt(Canon(v, b));
    forall k | 0 <= k < |Canon(v, b)|
      ensures Text(Canon(v, b))[k] == LOWER[DigitAt(v, b, |Canon(v, b)| - 1 - k)]
    {
      TextCharAt(v, b, k);
    }
  }

  lemma TextCharAt(v: nat, b: nat, k: nat)
    requires 2 <= b <= 36 && k < |Canon(v, b)|
    ensures var ds := Canon(v, b);
      |Text(ds)| == |ds| && Text(ds)[k] == LOWER[DigitAt(v, b, |ds| - 1 - k)]
  {
    hide Power, DigitChar, DigitAt, Canon, Text, DigitOf;
    var ds := Canon(v, b);
    TextAt(ds);
    CanonAt(v, b, |ds| - 1 - k);
    DigitTable(ds[|ds| - 1 - k]);
  }

  /** Reading one more character: a digit in either case, or an underscore. */
  lemma ReadNext(t: string, c: char, d: int, b: int)
    requires 0 <= d < b <= 36
    ensures c == LOWER[d] || c == UPPER[d] ==> DVal(TextDigits(t + [c]), b) == b * DVal(TextDigits(t), b) + d
    ensures DVal(TextDigits(t + ['_']), b) == DVal(TextDigits(t), b) && DVal(TextDigits(""), b) == 0
  {
    hide DVal, TextDigits, DigitOf;
    DigitTable(d);
    TextSnoc(t, c);
    TextSnoc(t, '_');
    DCons(d, TextDigits(t), b);
    assert [] + TextDigits(t) == TextDigits(t);
    NoText(b);
    if c == '_' { NoUnderscore(d); }
  }

  lemma NoText(b: int)
    ensures DVal(TextDigits(""), b) == 0
  {
  }

  lemma NoUnderscore(d: int)
    requires 0 <= d < 36
    ensures LOWER[d] != '_' && UPPER[d] != '_'
  {
    DigitTable(d);
  }

  /** The sign in front, and nothing else, decides the sign of what is read. */
  lemma ReadSigned(t: string, b: int)
    requires t != "" ==> t[0] != '-' && t[0] != '+'
    ensures ReadValue(t, b) == DVal(TextDigits(t), b) && Unsigned(t) == t
    ensures ReadValue("-" + t, b) == -DVal(TextDigits(t), b) && Unsigned("-" + t) == t
    ensures ReadValue("+" + t, b) == DVal(TextDigits(t), b) && Unsigned("+" + t) == t
  {
    hide DVal, TextDigits;
    assert ("-" + t)[1..] == t && ("+" + t)[1..] == t;
  }

  /** What is readable: digits of the base in either case, and underscores. */
  lemma ReadableText(s: string, b: int)
    requires 2 <= b <= 36
    ensures Readable(s, b) <==>
      forall i :: 0 <= i < |s| ==>
        s[i] == '_' || exists d :: 0 <= d < b && (s[i] == LOWER[d] || s[i] == UPPER[d])
  {
    hide DigitOf;
    forall i | 0 <= i < |s|
      ensures 0 <= DigitOf(s[i]) < b <==> exists d :: 0 <= d < b && (s[i] == LOWER[d] || s[i] == UPPER[d])
    {
      if 0 <= DigitOf(s[i]) < b { OnlyDigits(s[i]); }
      if d :| 0 <= d < b && (s[i] == LOWER[d] || s[i] == UPPER[d]) { DigitTable(d); }
    }
  }
}
