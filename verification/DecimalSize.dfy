/**
  How many decimal digits a binary number can have: the estimate
  bits * 30103 / 100000 + 2 (lib/sp_bigint.c:3712-3713) is enough for every
  number of bits. It rests on 2^13301 <= 10^4004.
 */
module DecimalSize {
  import opened Limbs
  import opened Powers
  import opened Shifts
  import opened Integers

  lemma {:induction false} PowerProduct(a: int, b: int, e: nat)
    ensures Power(a * b, e) == Power(a, e) * Power(b, e)
  {
    hide Power;
    if e == 0 {
      PowerStep(a, 0);
      PowerStep(b, 0);
      PowerStep(a * b, 0);
    } else {
      PowerProduct(a, b, e - 1);
      PowerStep(a, e - 1);
      PowerStep(b, e - 1);
      PowerStep(a * b, e - 1);
      assert (a * b) * (Power(a, e - 1) * Power(b, e - 1)) == (a * Power(a, e - 1)) * (b * Power(b, e - 1));
    }
  }

  lemma {:induction false} PowerOfTwo(e: nat)
    ensures Power(2, e) == Two(e)
  {
    hide Power;
    if e == 0 {
      PowerStep(2, 0);
    } else {
      PowerStep(2, e - 1);
      PowerOfTwo(e - 1);
    }
  }

  /** 10^e is 5^e times 2^e. */
  lemma TenPower(e: nat)
    ensures Power(10, e) == Power(5, e) * Two(e)
  {
    PowerProduct(5, 2, e);
    PowerOfTwo(e);
  }

  /** m * 2^e is at most 5^k. */
  ghost predicate Under(k: nat, m: nat, e: nat) {
    m * Two(e) <= Power(5, k)
  }

  /** Squaring such a bound, times 5 for an odd exponent, with 32 d low bits dropped. */
  lemma SquareUp(k: nat, m: nat, e: nat, odd: nat, m': nat, d: nat)
    requires Under(k, m, e) && odd <= 1 && m' * Pw(d) <= m * m * (if odd == 1 then 5 else 1)
    ensures Under(2 * k + odd, m', 2 * e + 32 * d)
  {
    hide Power, Two, Pw;
    var p, t, c := Power(5, k), Two(e), if odd == 1 then 5 else 1;
    PowerSum(5, k, k);
    PowerStep(5, 2 * k);
    assert k + k == 2 * k;
    TwoAdd(e, e);
    TwoAdd(e + e, 32 * d);
    TwoPw(d);
    Squares(m, t, p, m', Pw(d), c);
  }

  lemma Squares(m: nat, t: nat, p: nat, m': nat, w: nat, c: nat)
    requires m * t <= p && m' * w <= m * m * c && t > 0
    ensures m' * (t * t * w) <= c * (p * p)
  {
    NonNeg(m, t);
    MulLe(m * t, p, m * t);
    MulLe(m * t, p, p);
    assert p * (m * t) == (m * t) * p;
    NonNeg(t, t);
    MulLe(m' * w, m * m * c, t * t);
    assert (m' * w) * (t * t) == m' * (t * t * w);
    assert (m * m * c) * (t * t) == c * ((m * t) * (m * t));
    MulLe((m * t) * (m * t), p * p, c);
    assert c * ((m * t) * (m * t)) == (m * t) * (m * t) * c;
  }

  lemma Limbs3()
    ensures Pw(0) == 1 && Pw(1) == 0x1_0000_0000 && Pw(2) == 0x1_0000_0000_0000_0000
    ensures Pw(3) == 0x1_0000_0000_0000_0000_0000_0000
  {
    assert Pw(1) == BASE * Pw(0);
    assert Pw(2) == BASE * Pw(1);
    assert Pw(3) == BASE * Pw(2);
  }

  lemma FiveTo4004()
    ensures Under(4004, 2418005710433477442019945, 9216)
  {
    hide Power, Two, Pw, Under;
    FirstUnder();
    Limbs3();
    SquareUp(15, 30517578125, 0, 1, 4656612873077392578125, 0);
    SquareUp(31, 4656612873077392578125, 0, 0, 1175494350822287507968736, 2);
    SquareUp(62, 1175494350822287507968736, 64, 1, 87203017523366926743, 3);
    SquareUp(125, 87203017523366926743, 224, 0, 412233521254216531719, 2);
    SquareUp(250, 412233521254216531719, 512, 0, 9212274825661262835090, 2);
    SquareUp(500, 9212274825661262835090, 1088, 1, 23002977415527753932061854, 2);
    SquareUp(1001, 23002977415527753932061854, 2240, 0, 6678647505980129516338, 3);
    SquareUp(2002, 6678647505980129516338, 4576, 0, 2418005710433477442019945, 2);
  }

  lemma FirstUnder()
    ensures Under(15, 30517578125, 0)
  {
    assert Power(5, 5) == 3125;
    PowerSum(5, 5, 5);
    PowerSum(5, 10, 5);
    TwoZero();
  }

  /** A ratio of exponents just above log10 of 2. */
  lemma BigPair()
    ensures Two(13301) <= Power(10, 4004)
  {
    hide Power, Two, Pw;
    FiveTo4004();
    TenPower(4004);
    TwoAdd(81, 9216);
    TwoAdd(9297, 4004);
    Two81();
    BigStep(2418005710433477442019945, Two(81), Two(9216), Power(5, 4004), Two(4004));
  }

  lemma BigStep(m: nat, a: nat, b: nat, p: nat, t: nat)
    requires m * b <= p && a <= m && b > 0 && t > 0
    ensures (a * b) * t <= p * t
  {
    MulLe(a, m, b);
    MulLe(a * b, p, t);
  }

  lemma Two81()
    ensures Two(81) == 0x2_0000_0000_0000_0000_0000
  {
    assert Two(9) == 512;
    TwoAdd(9, 9);
    TwoAdd(18, 9);
    TwoAdd(27, 27);
    TwoAdd(54, 27);
  }

  /** A pair of exponents repeated. */
  lemma {:induction false} Repeated(c: nat, a: nat, k: nat)
    requires Two(c) <= Power(10, a)
    ensures Two(c * k) <= Power(10, a * k)
  {
    hide Power, Two;
    if k == 0 {
      TwoZero();
      PowerStep(10, 0);
      assert c * 0 == 0 && a * 0 == 0;
    } else {
      Repeated(c, a, k - 1);
      assert c * k == c + c * (k - 1) && a * k == a + a * (k - 1);
      TwoAdd(c, c * (k - 1));
      PowerSum(10, a, a * (k - 1));
      Products(Two(c), Power(10, a), Two(c * (k - 1)), Power(10, a * (k - 1)));
    }
  }

  lemma Products(a: nat, b: nat, c: nat, d: nat)
    requires a <= b && c <= d
    ensures 0 <= a * c <= b * d
  {
    NonNeg(a, c);
    MulLe(a, b, c);
    MulLe(c, d, b);
    assert b * c == c * b && b * d == d * b;
  }

  lemma SmallPair()
    ensures Two(93) <= Power(10, 28)
  {
    hide Two, Power;
    Two81();
    TwelveBits();
    TwoAdd(81, 12);
    TenTo28();
  }

  lemma TwelveBits()
    ensures Two(12) == 4096
  {
  }

  lemma TenTo28()
    ensures Power(10, 28) == 10000000000000000000000000000
  {
    assert Power(10, 7) == 10000000;
    PowerSum(10, 7, 7);
    PowerSum(10, 14, 14);
  }

  /** How far 1024^u runs ahead of 1000^u, in units of 1/100000, rounded up. */
  function Ahead(u: nat): nat {
    [100000, 102400, 104858, 107375, 109952, 112591, 115294, 118062, 120896, 123798][if u < 10 then u else 9]
  }

  lemma {:induction false} Decades(u: nat)
    requires u < 10
    ensures 100000 * Two(10 * u) <= Ahead(u) * Power(10, 3 * u)
  {
    hide Power, Two;
    if u == 0 {
      TwoZero();
      PowerStep(10, 0);
    } else {
      Decades(u - 1);
      TwoAdd(10, 10 * (u - 1));
      PowerSum(10, 3, 3 * (u - 1));
      TenBits();
      PowerPositive(10, 3 * (u - 1));
      MulLe(1024 * Ahead(u - 1), 1000 * Ahead(u), Power(10, 3 * (u - 1)));
      assert (1024 * Ahead(u - 1)) * Power(10, 3 * (u - 1)) == 1024 * (Ahead(u - 1) * Power(10, 3 * (u - 1)));
      assert (1000 * Ahead(u)) * Power(10, 3 * (u - 1)) == Ahead(u) * (1000 * Power(10, 3 * (u - 1)));
    }
  }

  lemma TenBits()
    ensures Two(10) == 1024 && Power(10, 3) == 1000
  {
  }

  lemma FewBits(t: nat)
    requires t < 93
    ensures Two(t) <= Power(10, t * 30103 / 100000 + 1)
  {
    hide Power, Two;
    var u, v := t / 10, t % 10;
    var g := v * 30103 / 100000 + 1;
    Decades(u);
    Units(v);
    assert t == 10 * u + v;
    TwoAdd(10 * u, v);
    PowerSum(10, 3 * u, g);
    PowerMono(10, 3 * u + g, t * 30103 / 100000 + 1);
    PowerPositive(10, 3 * u);
    Joined(Two(10 * u), Power(10, 3 * u), Two(v), Power(10, g), Ahead(u));
  }

  lemma Joined(a: nat, p: nat, b: nat, q: nat, c: nat)
    requires 100000 * a <= c * p && c <= 124000 && 124 * b <= 100 * q
    ensures a * b <= p * q
  {
    MulLe(c, 124000, p);
    MulLe(100000 * a, 124000 * p, b);
    MulLe(124 * b, 100 * q, p);
    assert (100000 * a) * b == 100000 * (a * b);
    assert (124000 * p) * b == 1000 * ((124 * b) * p);
    assert (100 * q) * p == 100 * (p * q);
  }

  lemma Units(v: nat)
    requires v < 10
    ensures 124 * Two(v) <= 100 * Power(10, v * 30103 / 100000 + 1)
  {
    assert Two(0) == 1 && Two(1) == 2 && Two(2) == 4 && Two(3) == 8 && Two(4) == 16;
    assert Two(5) == 32 && Two(6) == 64 && Two(7) == 128 && Two(8) == 256 && Two(9) == 512;
    assert Power(10, 1) == 10 && Power(10, 2) == 100 && Power(10, 3) == 1000;
  }

  /** The source's estimate of the decimal digits of a number of so many bits. */
  function DigitEstimate(bits: nat): nat {
    bits * 30103 / 100000 + 2
  }

  /** The estimate is enough, for every number of bits. */
  lemma EstimateEnough(bits: nat)
    ensures Two(bits) <= Power(10, DigitEstimate(bits))
  {
    hide Power, Two;
    var k, r := bits / 13301, bits % 13301;
    var j, t := r / 93, r % 93;
    BigPair();
    SmallPair();
    Repeated(13301, 4004, k);
    Repeated(93, 28, j);
    FewBits(t);
    var a, b, c := 4004 * k, 28 * j, t * 30103 / 100000 + 1;
    TwoAdd(13301 * k, 93 * j);
    TwoAdd(13301 * k + 93 * j, t);
    assert bits == 13301 * k + 93 * j + t;
    PowerSum(10, a, b);
    PowerSum(10, a + b, c);
    Products(Two(13301 * k), Power(10, a), Two(93 * j), Power(10, b));
    Products(Two(13301 * k + 93 * j), Power(10, a + b), Two(t), Power(10, c));
    PowerMono(10, a + b + c, DigitEstimate(bits));
  }
}
