/** Barrett reduction (lib/sp_bigint.c:4903-5007) and the remainder that uses it (3045-3117). */
module Barrett {
  import opened Limbs
  import opened Shifts
  import opened LimbBits
  import opened Knuth
  import opened Integers
  import opened MulMpz
  import opened DivMpz

  /** The estimated quotient of x by a k-bit modulus m. */
  function Q3(x: nat, m: nat, k: nat): (q: nat)
    requires m > 0 && k > 0
  {
    Quot(Prod(Quot(x, Two(k - 1)), Quot(Two(2 * k), m)), Two(k + 1))
  }

  function Prod(a: nat, b: nat): nat {
    NonNeg(a, b);
    a * b
  }

  /** Upper half: the estimate never exceeds the quotient. */
  lemma EstimateBelow(x: nat, m: nat, a: nat, mu: nat, h: nat, g: nat, q: nat)
    requires m > 0 && h > 0 && g > 0 && a * h <= x && mu * m <= h * g && q * g <= a * mu
    ensures q * m <= x
  {
    MulLe(q * g, a * mu, m);
    MulLe(mu * m, h * g, a);
    MulLe(a * h, x, g);
    assert (a * mu) * m == (mu * m) * a;
    assert (h * g) * a == (a * h) * g;
    assert (q * g) * m == (q * m) * g;
    assert (q * m) * g <= x * g;
    if q * m > x { MulLt(x, q * m, g); assert false; }
  }

  lemma ScaleLow(a: nat, mu: nat, m: nat, q: nat, g: nat)
    requires a * mu < (q + 1) * g
    ensures (a * mu) * m + m <= ((q + 1) * g) * m
  {
    MulLe(a * mu + 1, (q + 1) * g, m);
    Dist(a * mu, 1, m);
  }

  lemma ScaleMid(h: nat, g: nat, mu: nat, m: nat, a: nat)
    requires h * g < (mu + 1) * m
    ensures (a * h) * g <= (a * mu) * m + a * m
  {
    MulLe(h * g, (mu + 1) * m, a);
    Dist(mu, 1, m);
    Dist(mu * m, m, a);
    assert (h * g) * a == (a * h) * g;
    assert (mu * m) * a == (a * mu) * m;
  }

  lemma ScaleHigh(x: nat, a: nat, h: nat, g: nat)
    requires x < (a + 1) * h && g > 0
    ensures x * g < (a * h) * g + h * g
  {
    MulLt(x, (a + 1) * h, g);
    Dist(a, 1, h);
    Dist(a * h, h, g);
  }

  lemma ThreeMore(q: nat, g: nat, m: nat)
    ensures ((q + 1) * g) * m + 2 * (g * m) == ((q + 3) * m) * g
  {
    Dist(q + 1, 2, g);
    Dist((q + 1) * g, 2 * g, m);
    Assoc(2, g, m);
    assert ((q + 3) * g) * m == ((q + 3) * m) * g;
  }

  /** Lower half: it falls short by at most two. */
  lemma EstimateAbove(x: nat, m: nat, a: nat, mu: nat, h: nat, g: nat, q: nat)
    requires m >= h && h > 0 && g > 0 && a < g
    requires x < (a + 1) * h && h * g < (mu + 1) * m && a * mu < (q + 1) * g
    ensures x < (q + 3) * m
  {
    ScaleLow(a, mu, m, q, g);
    ScaleMid(h, g, mu, m, a);
    ScaleHigh(x, a, h, g);
    MulLe(a, g, m);
    MulLe(h, m, g);
    ThreeMore(q, g, m);
    if x >= (q + 3) * m {
      MulLe((q + 3) * m, x, g);
      assert false;
    }
  }

  /** The estimate is never above the quotient, whatever the size of x. */
  lemma Q3Below(x: nat, m: nat, k: nat)
    requires k > 0 && m > 0
    ensures 0 <= Q3(x, m, k) * m <= x
  {
    hide Two, Quot;
    var h, g := Two(k - 1), Two(k + 1);
    TwoAdd(k - 1, k + 1);
    assert k - 1 + (k + 1) == 2 * k;
    EstimateBelow(x, m, Quot(x, h), Quot(Two(2 * k), m), h, g, Q3(x, m, k));
    NonNeg(Q3(x, m, k), m);
  }

  /** For a k-bit modulus and x below 2^(2k): floor(x / m) - 2 <= q3 <= floor(x / m). */
  lemma Q3Range(x: nat, m: nat, k: nat)
    requires k > 0 && Two(k - 1) <= m < Two(k) && x < Two(2 * k)
    ensures 0 <= x - Q3(x, m, k) * m < 3 * m
    ensures x / m - 2 <= Q3(x, m, k) <= x / m
  {
    hide Two, Quot;
    var h, g := Two(k - 1), Two(k + 1);
    var a, mu, q := Quot(x, h), Quot(Two(2 * k), m), Q3(x, m, k);
    TwoAdd(k - 1, k + 1);
    assert k - 1 + (k + 1) == 2 * k;
    if a >= g {
      MulLe(g, a, h);
      assert false;
    }
    EstimateBelow(x, m, a, mu, h, g, q);
    EstimateAbove(x, m, a, mu, h, g, q);
    Dist(q, 3, m);
    DivLower(x, m, q);
    DivUpper(x, m, q + 3);
  }

  /** The true difference that the reduction has to keep. */
  function Difference(x: nat, m: nat, k: nat): nat
    requires k > 0 && m > 0
  {
    Q3Below(x, m, k);
    x - Q3(x, m, k) * m
  }

  /** What the reduction computes: the difference kept modulo 2^(k+1), then reduced. */
  function BarrettValue(x: nat, m: nat, k: nat): nat
    requires k > 0 && m > 0
  {
    Difference(x, m, k) % Two(k + 1) % m
  }

  lemma {:induction false} TwoMod3(e: nat)
    ensures Two(e) % 3 != 0
  {
    if e > 0 {
      TwoMod3(e - 1);
      DoubleMod3(Two(e - 1));
    }
  }

  lemma DoubleMod3(t: int)
    requires t % 3 != 0
    ensures (2 * t) % 3 != 0
  {
  }

  lemma SubMultiple(x: int, q: int, m: int)
    requires m > 0
    ensures (x - q * m) % m == x % m
  {
    var d, r := x / m, x % m;
    assert x == m * d + r;
    Dist(d, q, m);
    FloorUnique(x - q * m, m, d - q, r, (x - q * m) / m, (x - q * m) % m);
  }

  /** If D and D - p agree modulo m then m divides p. */
  lemma SameResidue(D: int, p: int, m: int)
    requires m > 0 && D % m == (D - p) % m
    ensures p == m * (D / m - (D - p) / m)
  {
    assert D == m * (D / m) + D % m;
    assert D - p == m * ((D - p) / m) + (D - p) % m;
    DistL(m, D / m, (D - p) / m);
  }

  lemma TwoSteps(k: nat)
    requires k > 0
    ensures Two(k) == 2 * Two(k - 1) && Two(k + 1) == 4 * Two(k - 1)
  {
  }

  /** A k-bit number that divides 2^(k+1) is 2^(k-1). */
  lemma DivisorOfPower(m: nat, c: int, k: nat)
    requires k > 0 && Two(k - 1) <= m < Two(k) && m * c == Two(k + 1)
    ensures m == Two(k - 1)
  {
    hide Two;
    TwoSteps(k);
    if c <= 2 { MulLe(c, 2, m); assert false; }
    if c >= 5 { MulLe(5, c, m); assert false; }
    if c == 3 { TwoMod3(k + 1); TripleMod3(m); assert false; }
  }

  lemma TripleMod3(m: int)
    ensures (m * 3) % 3 == 0
  {
  }

  /**
    Barrett reduction is exact if and only if the modulus divides the part of
    the difference above the k + 1 bits that are kept.
   */
  lemma BarrettExact(x: nat, m: nat, k: nat)
    requires k > 0 && m > 0
    ensures BarrettValue(x, m, k) == x % m
       <==> (Two(k + 1) * (Difference(x, m, k) / Two(k + 1))) % m == 0
  {
    hide Two, Q3;
    var p, D := Two(k + 1), Difference(x, m, k);
    SubMultiple(x, Q3(x, m, k), m);
    assert D == p * (D / p) + D % p;
    NonNeg(p, D / p);
    DropDivides(D, p * (D / p), m);
  }

  lemma DropDivides(D: int, c: int, m: int)
    requires m > 0
    ensures (D - c) % m == D % m <==> c % m == 0
  {
    if (D - c) % m == D % m {
      SameResidue(D, c, m);
      FloorUnique(c, m, D / m - (D - c) / m, 0, c / m, c % m);
    }
    if c % m == 0 {
      assert c == m * (c / m);
      SubMultiple(D, c / m, m);
    }
  }

  /** For x below 2^(2k) that means: exactly when the whole difference is kept. */
  lemma BarrettExactInRange(x: nat, m: nat, k: nat)
    requires k > 0 && Two(k - 1) <= m < Two(k) && x < Two(2 * k)
    ensures BarrettValue(x, m, k) == x % m <==> Difference(x, m, k) < Two(k + 1)
    ensures 3 * m <= Two(k + 1) ==> BarrettValue(x, m, k) == x % m
  {
    hide Two, Q3, BarrettValue, Difference;
    DifferenceRange(x, m, k);
    BarrettExact(x, m, k);
    DroppedPart(Difference(x, m, k), m, k);
  }

  lemma DifferenceRange(x: nat, m: nat, k: nat)
    requires k > 0 && Two(k - 1) <= m < Two(k) && x < Two(2 * k)
    ensures Difference(x, m, k) < 3 * m
  {
    Q3Range(x, m, k);
  }

  lemma DroppedPart(D: nat, m: nat, k: nat)
    requires k > 0 && Two(k - 1) <= m < Two(k) && D < 3 * m
    ensures (Two(k + 1) * (D / Two(k + 1))) % m == 0 <==> D < Two(k + 1)
  {
    hide Two;
    TwoSteps(k);
    var p := Two(k + 1);
    if D < p {
      QuotientIs(D, p, 0, D);
      assert p * (D / p) == 0;
    } else {
      QuotientIs(D, p, 1, D - p);
      assert p * (D / p) == p;
      if p % m == 0 {
        assert p == m * (p / m);
        DivisorOfPower(m, p / m, k);
        assert false;
      }
    }
  }

  const BAD_M: nat := 319952158166962076867811141376194101530
  const BAD_X: nat := 109894859469689431251969366002185878955971653599483843838647446974608387488611

  lemma Powers128()
    ensures Two(95) == 0x8000_0000_0000_0000_0000_0000
    ensures Two(96) == 0x1_0000_0000_0000_0000_0000_0000
    ensures Two(98) == 0x4_0000_0000_0000_0000_0000_0000
    ensures Two(127) == 0x8000_0000_0000_0000_0000_0000_0000_0000
    ensures Two(128) == 0x1_0000_0000_0000_0000_0000_0000_0000_0000
    ensures Two(129) == 0x2_0000_0000_0000_0000_0000_0000_0000_0000
    ensures Two(194) == 0x4_0000_0000_0000_0000_0000_0000_0000_0000_0000_0000_0000_0000
    ensures Two(256) == 0x1_0000_0000_0000_0000_0000_0000_0000_0000_0000_0000_0000_0000_0000_0000_0000_0000
  {
    hide Two;
    TwoLimb();
    SmallPowers();
    TwoAdd(32, 32);
    TwoAdd(64, 32);
    TwoAdd(96, 2);
    TwoAdd(64, 64);
    TwoAdd(1, 127);
    TwoAdd(128, 1);
    TwoAdd(96, 98);
    TwoAdd(128, 128);
    TwoAdd(1, 95);
  }

  lemma SmallPowers()
    ensures Two(1) == 2 && Two(2) == 4
  {
  }

  /** A 128-bit modulus and an operand below 2^256 whose result is not the remainder. */
  lemma BarrettFails()
    ensures Two(127) <= BAD_M < Two(128) && BAD_X < Two(256)
    ensures BarrettValue(BAD_X, BAD_M, 128) != BAD_X % BAD_M
  {
    hide Two;
    Powers128();
    assert Two(2 * 128) == Two(256);
    var a, mu := BAD_X / Two(127), Two(256) / BAD_M;
    assert Q3(BAD_X, BAD_M, 128) == a * mu / Two(129);
    BarrettExactInRange(BAD_X, BAD_M, 128);
  }

  // ----- the operations -----

  /** mpz_bits of a nonzero magnitude: its bit length. */
  function Bits(p: seq<Limb>): nat
    requires |p| > 0 && p[|p| - 1] != 0
  {
    32 * (|p| - 1) + (32 - Lzb(p[|p| - 1]))
  }

  lemma BitsRange(p: seq<Limb>)
    requires |p| > 0 && p[|p| - 1] != 0
    ensures Bits(p) > 0 && Two(Bits(p) - 1) <= Val(p) < Two(Bits(p))
  {
    hide Val, Two, Pw, BitLen;
    var n, top := |p| - 1, p[|p| - 1];
    var b := BitLen(top);
    BitLenRange(top);
    PrefixVal(p);
    ValBound(p[..n]);
    TwoPw(n);
    TwoAdd(b - 1, 32 * n);
    TwoAdd(b, 32 * n);
    TopRange(Val(p[..n]), top, Pw(n), Two(b - 1), Two(b));
  }

  lemma TopRange(low: int, top: int, unit: int, lo: int, hi: int)
    requires 0 <= low < unit && lo <= top < hi
    ensures lo * unit <= low + top * unit < hi * unit
  {
    MulLe(lo, top, unit);
    MulLe(top + 1, hi, unit);
    Dist(top, 1, unit);
  }

  /** A normalized magnitude below 2^e has at most e / 32 + 1 limbs. */
  lemma SizeBound(p: seq<Limb>, e: nat)
    requires Norm(p) && Val(p) < Two(e)
    ensures 32 * |p| <= e + 32
  {
    hide Val, Two, Pw;
    if |p| > 1 {
      ValTop(p);
      TwoPw(|p| - 1);
      if e <= 32 * (|p| - 1) {
        TwoMono(e, 32 * (|p| - 1));
        assert false;
      }
    }
  }

  /** mpz_barrett_mu. */
  method BarrettMu(mu: Mpz, m: Mpz) returns (ok: bool)
    requires m.Ok() && m.Mag() > 0 && m.sn == 1 && mu != m && |m.p| > 0 && m.p[|m.p| - 1] != 0
    modifies mu
    ensures 2 * Bits(m.p) + 32 <= BIT_LIMIT ==> ok
    ensures ok ==> mu.Ok() && mu.Value() == Quot(Two(2 * Bits(m.p)), m.Mag())
  {
    hide Val, Two;
    var k := Bits(m.p);
    var temp := new Mpz();
    ok := SetPower(temp, 2 * k);
    if ok {
      MDiv(mu, temp, m);
    }
  }

  /** A nonnegative value is its magnitude, whatever sign a zero carries. */
  lemma NonNegMag(sn: int, v: nat)
    requires sn * v >= 0 && -1 <= sn <= 1 && (sn == 0 ==> v == 0)
    ensures sn * v == v
  {
  }

  lemma QuotSize(x: nat, d: nat, b: nat, bound: nat)
    requires d > 0 && d * b >= bound && x < bound
    ensures Quot(x, d) < b
  {
    if Quot(x, d) >= b {
      MulLe(b, Quot(x, d), d);
      assert false;
    }
  }

  lemma MuSize(m: nat, k: nat)
    requires k > 0 && Two(k - 1) <= m
    ensures m > 0 && Quot(Two(2 * k), m) < Two(k + 2)
  {
    hide Two;
    TwoAdd(k - 1, k + 2);
    TwoMono(2 * k, k - 1 + (k + 2));
    MulLe(Two(k - 1), m, Two(k + 2));
    QuotSize(Two(2 * k), m, Two(k + 2), Two(2 * k) + 1);
  }

  lemma SignOfQuotient(sn: int, v: nat, d: nat)
    requires d > 0 && sn * v == v && -1 <= sn <= 1
    ensures sn * (v / d) == v / d
  {
    if sn != 1 {
      assert v == 0;
      assert v / d == 0;
    }
  }

  /** A normalized magnitude not above another has no more limbs, or is one limb. */
  lemma SizeLe(a: seq<Limb>, b: seq<Limb>)
    requires Norm(a) && Val(a) <= Val(b)
    ensures |a| <= |b| || |a| == 1
  {
    if |a| > |b| && |a| > 1 {
      ValTop(a);
      ValBound(b);
      PwMono(|b|, |a| - 1);
      assert false;
    }
  }

  lemma QuotLe(x: nat, d: nat)
    requires d > 0
    ensures Quot(x, d) <= x
  {
    if Quot(x, d) > x { MulLe(1, d, Quot(x, d)); assert false; }
  }

  /** q3, by a shift, a product and a shift. */
  method EstimateQ3(q3: Mpz, x: Mpz, m: Mpz, mu: Mpz, k: nat) returns (ok: bool)
    requires x.Ok() && m.Ok() && mu.Ok() && k > 0 && x.sn == 1 && m.Mag() > 0
    requires q3 != x && q3 != m && q3 != mu
    requires Two(k - 1) <= m.Mag() && k <= 32 * |m.p| && mu.Value() == Quot(Two(2 * k), m.Mag())
    modifies q3
    ensures 32 * (|x.p| + |m.p| + 8) <= BIT_LIMIT ==> ok
    ensures ok ==> q3.Ok() && q3.Value() == Q3(x.Mag(), m.Mag(), k) == q3.Mag()
  {
    hide Val, Two, Quot;
    var q1 := new Mpz();
    Div2exp(q1, x, k - 1);
    var q2 := new Mpz();
    ghost var a, u := Quot(x.Mag(), Two(k - 1)), Quot(Two(2 * k), m.Mag());
    QuotLe(x.Mag(), Two(k - 1));
    SizeLe(q1.p, x.p);
    MuSize(m.Mag(), k);
    NonNegMag(mu.sn, Val(mu.p));
    SizeBound(mu.p, k + 2);
    ok := MulTo(q2, q1, mu);
    if ok {
      NonNeg(a, u);
      assert q2.Value() == a * u == Prod(a, u);
      NonNegMag(q2.sn, Val(q2.p));
      Div2exp(q3, q2, k + 1);
      SignOfQuotient(q2.sn, Val(q2.p), Two(k + 1));
    }
  }

  /** From x = 2^(k+1) on the estimate is at least two. */
  lemma Q3AtPower(x: nat, m: nat, k: nat)
    requires k > 0 && Two(k - 1) <= m < Two(k) && x >= Two(k + 1)
    ensures Q3(x, m, k) >= 2
  {
    hide Two, Quot;
    TwoSteps(k);
    TwoAdd(k, k);
    var a, mu, g := Quot(x, Two(k - 1)), Quot(Two(2 * k), m), Two(k + 1);
    if a < 4 {
      MulLe(a + 1, 4, Two(k - 1));
      assert false;
    }
    if mu < Two(k) {
      MulLe(mu + 1, Two(k), m);
      MulLe(m, Two(k), Two(k));
      assert false;
    }
    MulLe(4, a, mu);
    if Quot(Prod(a, mu), g) < 2 {
      MulLe(Quot(Prod(a, mu), g) + 1, 2, g);
      assert false;
    }
  }

  lemma DiffMod(x: int, s: int, p: int)
    requires p > 0
    ensures (x - s) % p == (if x % p >= s % p then x % p - s % p else x % p - s % p + p)
  {
    var a, u, b, w := x / p, x % p, s / p, s % p;
    assert x == p * a + u && s == p * b + w;
    DistL(p, a, b);
    if u >= w {
      FloorUnique(x - s, p, a - b, u - w, (x - s) / p, (x - s) % p);
    } else {
      DistL(p, a - b, 1);
      FloorUnique(x - s, p, a - b - 1, u - w + p, (x - s) / p, (x - s) % p);
    }
  }

  /** When both kept residues are zero, both operands had more than k + 1 bits. */
  lemma BothZero(X: nat, M: nat, q: nat, k: nat)
    requires k > 0 && Two(k - 1) <= M < Two(k) && M <= X && q == Q3(X, M, k)
    requires X % Two(k + 1) == 0 && (q * M) % Two(k + 1) == 0
    ensures X >= Two(k + 1) && q * M >= Two(k + 1)
  {
    hide Two, Q3;
    var P := Two(k + 1);
    assert X == P * (X / P);
    MultipleBound(X, P, X / P);
    Q3AtPower(X, M, k);
    MulLe(2, q, M);
    assert q * M == P * ((q * M) / P);
    MultipleBound(q * M, P, (q * M) / P);
  }

  lemma MultipleBound(x: nat, p: nat, c: int)
    requires p > 0 && x == p * c && x > 0
    ensures x >= p
  {
    if c <= 0 { MulLe(c, 0, p); assert false; }
    MulLe(1, c, p);
  }

  /** r2 = (q3 * m) mod 2^(k+1). */
  method KeptProduct(m: Mpz, q3: Mpz, k: nat) returns (r2: Mpz, ok: bool)
    requires m.Ok() && q3.Ok() && q3.Value() == q3.Mag() && m.sn == 1
    ensures fresh(r2) && (32 * (|q3.p| + |m.p| + 1) <= BIT_LIMIT ==> ok)
    ensures ok ==> r2.Ok() && r2.Value() == r2.Mag() == (q3.Mag() * m.Mag()) % Two(k + 1)
    ensures ok && q3.Mag() * m.Mag() >= Two(k + 1) && r2.Mag() == 0 ==> r2.p == []
  {
    hide Val, Two;
    ghost var q, M := q3.Mag(), m.Mag();
    r2 := new Mpz();
    ok := MulTo(r2, q3, m);
    if ok {
      NonNeg(q, M);
      NonNegMag(r2.sn, Val(r2.p));
      SignOfRemainder(r2.sn, Val(r2.p), Two(k + 1));
      Mod2exp(r2, r2, k + 1);
    }
  }

  lemma SignOfRemainder(sn: int, v: nat, d: nat)
    requires d > 0 && sn * v == v && -1 <= sn <= 1
    ensures sn * (v % d) == v % d
  {
    if sn != 1 {
      assert v == 0;
      assert v % d == 0;
    }
  }

  /** r = (r1 - r2) mod 2^(k+1), from the two kept residues. */
  method KeptDifference(r: Mpz, x: Mpz, m: Mpz, q3: Mpz, k: nat) returns (ok: bool)
    requires x.Ok() && m.Ok() && q3.Ok() && x.sn == 1 && m.sn == 1 && k > 0
    requires r != x && r != m && r != q3
    requires Two(k - 1) <= m.Mag() < Two(k) && k <= 32 * |m.p| && m.Mag() <= x.Mag()
    requires q3.Value() == q3.Mag() == Q3(x.Mag(), m.Mag(), k)
    modifies r
    ensures 32 * (|x.p| + |m.p| + 8) <= BIT_LIMIT ==> ok
    ensures ok ==> r.Ok() && r.Value() == Difference(x.Mag(), m.Mag(), k) % Two(k + 1)
  {
    hide Val, Two, Q3;
    ghost var X, M, q, P := x.Mag(), m.Mag(), q3.Mag(), Two(k + 1);
    Q3Below(X, M, k);
    MulLe(1, M, q);
    SizeLe(q3.p, x.p);
    var r1 := new Mpz();
    Mod2exp(r1, x, k + 1);
    var r2;
    r2, ok := KeptProduct(m, q3, k);
    if !ok { return; }
    if r1.Mag() == 0 && r2.Mag() == 0 {
      BothZero(X, M, q, k);
    }
    DiffMod(X, q * M, P);
    ok := SubtractKept(r, r1, r2, k + 1);
  }

  /** r1 - r2, with 2^e added first when r2 is the larger. */
  method SubtractKept(r: Mpz, r1: Mpz, r2: Mpz, e: nat) returns (ok: bool)
    requires r1.Ok() && r2.Ok() && r != r1 && r != r2 && r1 != r2
      && (r1.Value() == 0 == r2.Value() ==> |r2.p| <= |r1.p|)
    modifies r, r1
    ensures e + 64 <= BIT_LIMIT ==> ok
    ensures ok ==> r.Ok() && r.Value() == old(r1.Value() - r2.Value() + if r1.Value() >= r2.Value() then 0 else Two(e))
  {
    hide Val, Two;
    var c := CmpMpz(r1, r2);
    ok := true;
    if c < 0 {
      var power := new Mpz();
      ok := SetPower(power, e);
      if !ok { return; }
      AddMpz(r1, r1, power);
    }
    SubMpz(r, r1, r2);
  }

  /** Whether the kept difference needs a correcting subtraction. */
  ghost predicate Corrected(x: nat, m: nat, k: nat)
    requires k > 0 && m > 0
  {
    x >= m && Difference(x, m, k) % Two(k + 1) >= m
  }

  /** mpz_barrett_reduce; steps counts the correcting subtractions. */
  method BarrettReduce(r: Mpz, x: Mpz, m: Mpz, mu: Mpz) returns (ok: bool, ghost steps: nat)
    requires x.Ok() && m.Ok() && mu.Ok() && x.sn >= 0 && m.sn == 1
    requires r != x && r != m && r != mu
    requires |m.p| > 0 && m.p[|m.p| - 1] != 0
    requires m.Mag() > 0 && mu.Value() == Quot(Two(2 * Bits(m.p)), m.Mag())
    modifies r
    ensures Bits(m.p) > 0 && Two(Bits(m.p) - 1) <= m.Mag() < Two(Bits(m.p))
    ensures 32 * (|x.p| + |m.p| + 8) <= BIT_LIMIT ==> ok
    ensures ok ==> r.Ok() && r.Value() == BarrettValue(x.Mag(), m.Mag(), Bits(m.p)) && steps <= 3
    ensures ok && x.Mag() < Two(2 * Bits(m.p)) ==> steps <= 2
    ensures ok ==> (steps > 0 <==> Corrected(x.Mag(), m.Mag(), Bits(m.p))) && (steps > 0 ==> r.sn == 1)
  {
    hide Val, Two, Q3, Bits;
    BitsRange(m.p);
    BitsSmall(m.p);
    var k := Bits(m.p);
    ghost var X, M := x.Mag(), m.Mag();
    steps := 0;
    var c := CmpMpz(x, m);
    if c < 0 {
      Set(r, x);
      SmallCase(X, M, k);
      return true, 0;
    }
    var q3 := new Mpz();
    ok := EstimateQ3(q3, x, m, mu, k);
    if !ok { return; }
    ok := KeptDifference(r, x, m, q3, k);
    if !ok { return; }
    ghost var V := r.Value();
    KeptRange(X, M, k);
    steps := Correct(r, m);
    StepCount(V, M, steps);
  }

  /** The correcting subtractions; after one the sign stays 1 even if nothing is left. */
  method Correct(r: Mpz, m: Mpz) returns (ghost steps: nat)
    requires r.Ok() && m.Ok() && r != m && m.sn == 1 && m.Mag() > 0 && r.Value() >= 0
    modifies r
    ensures r.Ok() && r.Value() == old(r.Value()) % m.Mag() && steps * m.Mag() <= old(r.Value())
    ensures (steps > 0 <==> old(r.Value()) >= m.Mag()) && (steps > 0 ==> r.sn == 1)
  {
    hide Val;
    ghost var V, M := r.Value(), m.Mag();
    steps := 0;
    var d := CmpMpz(r, m);
    while d >= 0
      invariant r.Ok() && 0 <= r.Value() == V - steps * M
      invariant (d >= 0 <==> r.Value() >= M) && (steps > 0 ==> r.sn == 1 && V >= M)
      decreases r.Value()
    {
      SubMpz(r, r, m);
      Dist(steps, 1, M);
      steps := steps + 1;
      d := CmpMpz(r, m);
    }
    QuotientIs(V, M, steps, r.Value());
  }

  lemma StepCount(v: int, m: nat, steps: nat)
    requires m > 0 && steps * m <= v
    ensures v < 4 * m ==> steps <= 3
    ensures v < 3 * m ==> steps <= 2
  {
    if steps >= 4 { MulLe(4, steps, m); }
    if steps >= 3 { MulLe(3, steps, m); }
  }

  lemma SmallCase(X: nat, M: nat, k: nat)
    requires k > 0 && Two(k - 1) <= M < Two(k) && X < M
    ensures BarrettValue(X, M, k) == X
  {
    hide Two, Q3;
    Q3Below(X, M, k);
    QuotientIs(X, M, 0, X);
    TwoSteps(k);
    SmallMultiple(Q3(X, M, k), M, X);
    QuotientIs(X, Two(k + 1), 0, X);
  }

  lemma SmallMultiple(q: nat, m: nat, x: nat)
    requires q * m <= x < m
    ensures q == 0
  {
    if q >= 1 {
      MulLe(1, q, m);
      assert false;
    }
  }

  lemma KeptRange(X: nat, M: nat, k: nat)
    requires k > 0 && Two(k - 1) <= M < Two(k)
    ensures Difference(X, M, k) % Two(k + 1) < 4 * M
    ensures X < Two(2 * k) ==> Difference(X, M, k) % Two(k + 1) < 3 * M
  {
    hide Two, Q3;
    TwoSteps(k);
    ModLe(Difference(X, M, k), Two(k + 1));
    if X < Two(2 * k) {
      Q3Range(X, M, k);
    }
  }

  lemma ModLe(x: nat, p: nat)
    requires p > 0
    ensures x % p <= x && x % p < p
  {
    assert x == p * (x / p) + x % p;
    NonNeg(p, x / p);
  }

  // ----- mpz_mod -----

  /** The sizes for which mpz_mod takes the Barrett branch. */
  predicate UsesBarrett(xn: nat, yn: nat) {
    4 <= yn <= 16 && yn + 2 <= xn <= 2 * yn
  }

  /** mpz_mod_limb. */
  method ModLimb(r: Mpz, x: Mpz, m: Limb)
    requires x.Ok() && m > 0
    modifies r
    ensures r.Ok() && r.Mag() == old(x.Mag()) % m && r.Value() == old(x.sn) * (old(x.Mag()) % m)
  {
    hide Val;
    if x.sn == 0 {
      SetZero(r);
      return;
    }
    var sn := x.sn;
    var q, rem := DivByLimb(x.p, m);
    QuotientIs(Val(x.p), m, Val(q), rem);
    SetInt(r, rem);
    NonNegMag(r.sn, Val(r.p));
    if rem == 0 {
      r.sn := 0;
    } else {
      NonzeroLimbs(r.p);
      r.sn := sn;
    }
  }

  /** The magnitude mpz_mod leaves. */
  ghost function Residue(xs: seq<Limb>, ys: seq<Limb>): nat
    requires Norm(ys) && Val(ys) > 0
  {
    if UsesBarrett(|xs|, |ys|) then
      BitsRange(ys);
      BarrettValue(Val(xs), Val(ys), Bits(ys))
    else Val(xs) % Val(ys)
  }

  /** For every pair of operands: when mpz_mod leaves the remainder. */
  lemma ModExact(xs: seq<Limb>, ys: seq<Limb>)
    requires Norm(ys) && Val(ys) > 0
    ensures Residue(xs, ys) == Val(xs) % Val(ys) <==>
      (4 <= |ys| <= 16 && |ys| + 2 <= |xs| <= 2 * |ys| ==>
        var k := Bits(ys); (Two(k + 1) * (Difference(Val(xs), Val(ys), k) / Two(k + 1))) % Val(ys) == 0)
  {
    hide Val, Two, Bits, BarrettValue, Difference;
    if UsesBarrett(|xs|, |ys|) {
      BitsRange(ys);
      BarrettExact(Val(xs), Val(ys), Bits(ys));
    }
  }

  /** What a caller can check: outside the size window, or in Barrett's range with 3y <= 2^(k+1). */
  predicate ModChecked(xs: seq<Limb>, ys: seq<Limb>)
    requires Norm(ys)
  {
    || |ys| < 4 || |ys| > 16 || |xs| < |ys| + 2 || |xs| > 2 * |ys|
    || (Val(xs) < Two(2 * Bits(ys)) && 3 * Val(ys) <= Two(Bits(ys) + 1))
  }

  lemma ModSafe(xs: seq<Limb>, ys: seq<Limb>)
    requires Norm(ys) && Val(ys) > 0
    requires
      || |ys| < 4 || |ys| > 16 || |xs| < |ys| + 2 || |xs| > 2 * |ys|
      || (Val(xs) < Two(2 * Bits(ys)) && 3 * Val(ys) <= Two(Bits(ys) + 1))
    ensures Residue(xs, ys) == Val(xs) % Val(ys)
  {
    hide Val, Two, Bits, BarrettValue, Difference;
    if UsesBarrett(|xs|, |ys|) {
      BitsRange(ys);
      BarrettExactInRange(Val(xs), Val(ys), Bits(ys));
    }
  }

  /** In the size window and in Barrett's range, the remainder exactly when the whole difference is kept. */
  lemma ModExactInRange(xs: seq<Limb>, ys: seq<Limb>)
    requires Norm(ys) && Val(ys) > 0 && 4 <= |ys| <= 16 && |ys| + 2 <= |xs| <= 2 * |ys| && Val(xs) < Two(2 * Bits(ys))
    ensures Residue(xs, ys) == Val(xs) % Val(ys) <==> Difference(Val(xs), Val(ys), Bits(ys)) < Two(Bits(ys) + 1)
  {
    hide Val, Two, Bits, BarrettValue, Difference;
    BitsRange(ys);
    BarrettExactInRange(Val(xs), Val(ys), Bits(ys));
  }

  /** mpz_mod: the remainder with the sign of x, or what Barrett reduction makes of it. */
  method ModTo(r: Mpz, x: Mpz, y: Mpz)
    requires x.Ok() && y.Ok() && y.Mag() > 0 && r != y
    modifies r
    ensures r.Ok() && r.Mag() == Residue(old(x.p), old(y.p))
    ensures r.Value() == old(x.sn) * r.Mag()
    ensures ModChecked(old(x.p), old(y.p)) ==> r.Mag() == old(x.Mag()) % old(y.Mag())
  {
    hide Val, Two, BarrettValue, Bits;
    var sn := x.sn;
    ghost var X, Y, xs := Val(x.p), Val(y.p), x.p;
    if ModChecked(x.p, y.p) { ModSafe(x.p, y.p); }
    NonzeroLimbs(y.p);
    if sn == 0 {
      ZeroResidue(xs, y.p);
      SetZero(r);
      return;
    }
    if |y.p| == 1 {
      OneLimb(y.p);
      ModLimb(r, x, y.p[0]);
      return;
    }
    if UsesBarrett(|x.p|, |y.p|) {
      var t := ModBarrett(x.p, y.p);
      Set(r, t);
      NonNegMag(r.sn, Val(r.p));
    } else {
      var q := new Mpz();
      UDiv(q, r, x, y);
      QuotientIs(X, Y, Val(q.p), Val(r.p));
    }
    var rz := IsZero(r.p);
    if |r.p| == 0 { ValEmpty(r.p); }
    r.sn := if rz then 0 else sn;
  }

  lemma ZeroResidue(xs: seq<Limb>, ys: seq<Limb>)
    requires Norm(ys) && Val(ys) > 0 && Val(xs) == 0
    ensures Residue(xs, ys) == 0
  {
    hide Val, Two, Q3;
    if UsesBarrett(|xs|, |ys|) {
      BitsRange(ys);
      SmallCase(0, Val(ys), Bits(ys));
    }
  }

  /** The Barrett branch, on magnitudes. */
  method ModBarrett(xs: seq<Limb>, ys: seq<Limb>) returns (t: Mpz)
    requires Norm(xs) && Norm(ys) && UsesBarrett(|xs|, |ys|)
    ensures fresh(t) && t.Ok() && Val(ys) > 0 && t.Value() == Residue(xs, ys)
  {
    hide Val, Two, BarrettValue;
    var ax := new Mpz();
    ax.p, ax.sn, ax.alloc := xs, 1, true;
    var ay := new Mpz();
    ay.p, ay.sn, ay.alloc := ys, 1, true;
    BitsRange(ys);
    BitsSmall(ys);
    var mu := new Mpz();
    var ok := BarrettMu(mu, ay);
    t := new Mpz();
    ghost var steps;
    ok, steps := BarrettReduce(t, ax, ay, mu);
  }

  lemma BitsSmall(ys: seq<Limb>)
    requires |ys| > 0 && ys[|ys| - 1] != 0
    ensures Bits(ys) <= 32 * |ys|
  {
  }

  /** 2^256 - 1 modulo 3 * 2^95: eight limbs by four, and mpz_mod is wrong. */
  lemma ModFails()
    ensures var xs, ys := LimbsOf(Two(256) - 1), LimbsOf(3 * Two(95));
      |xs| == 8 && |ys| == 4 && Residue(xs, ys) != Val(xs) % Val(ys)
  {
    hide Val, Two, Bits, Q3, Pw, LimbsOf;
    var xs, ys := LimbsOf(Two(256) - 1), LimbsOf(3 * Two(95));
    Powers128();
    SmallPowers();
    TwoPw(3);
    TwoPw(4);
    TwoPw(7);
    TwoPw(8);
    TwoMono(224, 255);
    TwoAdd(1, 255);
    LimbCount(xs, 7);
    LimbCount(ys, 3);
    BitsRange(ys);
    var k := Bits(ys);
    TwoAdd(96, 1);
    if k < 97 { TwoMono(k, 96); assert false; }
    if k > 97 { TwoMono(97, k - 1); assert false; }
    WideOperand();
  }

  /** 2^256 - 1 has far more than twice the bits of 3 * 2^95, and too much is dropped. */
  lemma WideOperand()
    ensures BarrettValue(Two(256) - 1, 3 * Two(95), 97) != (Two(256) - 1) % (3 * Two(95))
  {
    hide Two;
    Powers128();
    assert Two(2 * 97) == Two(194);
    var x, m := Two(256) - 1, 3 * Two(95);
    var a, mu := Quot(x, Two(96)), Quot(Two(194), m);
    assert a == 0xFFFF_FFFF_FFFF_FFFF_FFFF_FFFF_FFFF_FFFF_FFFF_FFFF;
    assert mu == 0x2_AAAA_AAAA_AAAA_AAAA_AAAA_AAAA;
    var q := Quot(Prod(a, mu), Two(98));
    assert q == 0xAAAA_AAAA_AAAA_AAAA_AAAA_AAAA_7FFF_FFFF_FFFF_FFFF;
    assert Q3(x, m, 97) == q;
    assert Difference(x, m, 97) == 0x4000_0000_0000_0001_7FFF_FFFF_FFFF_FFFF_FFFF_FFFF;
  }
}
