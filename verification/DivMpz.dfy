/** Division of big integers (lib/sp_bigint.c:2671-3042) and the floored shift (5587-5620). */
module DivMpz {
  import opened Limbs
  import opened Shifts
  import opened LimbBits
  import opened Knuth
  import opened Integers

  /** Division of a magnitude by a limb, from the top limb down. */
  method DivByLimb(x: seq<Limb>, d: Limb) returns (q: seq<Limb>, r: Limb)
    requires d > 0
    ensures |q| == |x| && Val(x) == Val(q) * d + r && r < d
  {
    hide Val;
    q, r := [], 0;
    var i := |x|;
    ValEmpty(x[i..]);
    ValEmpty(q);
    while i > 0
      invariant 0 <= i <= |x| && |q| == |x| - i && r < d
      invariant Val(x[i..]) == Val(q) * d + r
    {
      i := i - 1;
      assert x[i..] == [x[i]] + x[i + 1..];
      ValCons(x[i], x[i + 1..]);
      var rem: nat := r * BASE + x[i];
      DigitFits(r, x[i], d);
      var digit := rem / d;
      ValCons(digit, q);
      LimbStep(Val(q), r, x[i], d);
      q := [digit] + q;
      r := rem % d;
    }
    assert x[0..] == x;
  }

  lemma DigitFits(r: nat, x: nat, d: nat)
    requires r < d && x < BASE
    ensures 0 <= (r * BASE + x) / d < BASE
  {
    MulLe(r + 1, d, BASE);
    DivUpper(r * BASE + x, d, BASE);
  }

  lemma LimbStep(q: int, r: nat, x: nat, d: nat)
    requires d > 0
    ensures x + BASE * (q * d + r) == ((r * BASE + x) / d + BASE * q) * d + (r * BASE + x) % d
  {
    var k := (r * BASE + x) / d;
    assert r * BASE + x == d * k + (r * BASE + x) % d;
    Dist(k, BASE * q, d);
    Assoc(BASE, q, d);
  }

  /** The power-of-two divisor: a right shift and a mask of the low limb. */
  method DivByPower(x: seq<Limb>, d: Limb, shift: nat) returns (q: seq<Limb>, r: Limb)
    requires |x| > 0 && shift < 32 && d == Two(shift)
    ensures Val(x) == Val(q) * d + r && r < d
  {
    hide Val, Two;
    r := x[0] % d;
    LowDivides(x, d, shift);
    if shift == 0 {
      TwoZero();
      q := x;
      return;
    }
    q := ShrSeq(x, shift);
  }

  lemma LowDivides(x: seq<Limb>, d: nat, shift: nat)
    requires |x| > 0 && shift < 32 && d == Two(shift)
    ensures d > 0 && Val(x) == (Val(x) / d) * d + x[0] % d
  {
    hide Val, Two;
    assert x == [x[0]] + x[1..];
    ValCons(x[0], x[1..]);
    TwoSplit(shift);
    BitSplit(x[0], Val(x[1..]), d, Two(32 - shift));
    QuotientIs(Val(x), d, x[0] / d + Val(x[1..]) * Two(32 - shift), x[0] % d);
  }

  /** log2 of a limb that is a power of two, by shifting. */
  method LogTwo(d: Limb) returns (shift: nat)
    requires d > 0 && And(d, d - 1) == 0
    ensures shift < 32 && d == Two(shift)
  {
    PowerTest(d);
    TwoLimb();
    CtzBound(d, 32);
    shift := 0;
    var temp: nat := d;
    while temp > 1
      invariant temp > 0 && shift <= Ctz(d) && temp == Two(Ctz(d) - shift)
      decreases temp
    {
      temp := temp / 2;
      shift := shift + 1;
    }
    UnitPower(Ctz(d) - shift);
  }

  lemma UnitPower(k: nat)
    requires Two(k) <= 1
    ensures k == 0
  {
  }

  /** A magnitude written as a nonnegative number. */
  method StoreMag(z: Mpz, limbs: seq<Limb>)
    modifies z
    ensures z.Ok() && z.alloc && z.Mag() == Val(limbs) && z.p == Stripped(limbs) && z.sn == (if z.p == [] then 0 else 1)
  {
    Store(z, limbs, 1);
  }

  /** div_limb; the quotient may replace the dividend. */
  method DivLimb(q: Mpz, r: Mpz, x: Mpz, d: Limb)
    requires x.Ok() && d > 0 && q != r
    modifies q, r
    ensures q.Ok() && r.Ok() && (old(q.alloc) ==> q.alloc)
    ensures old(x.Mag()) == q.Mag() * d + r.Mag() && r.Mag() < d
  {
    hide Val, Two, And;
    if x.sn == 0 {
      SetZero(q);
      SetZero(r);
      return;
    }
    var qs, rem := DivMagLimb(x.p, d);
    StoreMag(q, qs);
    OneLimb([rem]);
    StoreMag(r, [rem]);
  }

  /** The three ways div_limb divides a magnitude. */
  method DivMagLimb(x: seq<Limb>, d: Limb) returns (q: seq<Limb>, r: Limb)
    requires |x| > 0 && d > 0
    ensures Val(x) == Val(q) * d + r && r < d
  {
    hide Val, Two, And;
    if And(d, d - 1) == 0 {
      var shift := LogTwo(d);
      q, r := DivByPower(x, d, shift);
    } else if |x| == 1 {
      OneLimb(x);
      DigitFits(0, x[0], d);
      q, r := [x[0] / d], x[0] % d;
      OneLimb(q);
    } else {
      q, r := DivByLimb(x, d);
    }
  }

  /** lzb of a nonzero limb. */
  function Lzb(d: Limb): nat
    requires d > 0
  {
    TwoLimb();
    BitLenBound(d, 32);
    32 - BitLen(d)
  }

  lemma {:induction false} BitLenRange(x: nat)
    requires x > 0
    ensures BitLen(x) >= 1 && Two(BitLen(x) - 1) <= x < Two(BitLen(x))
  {
    if x > 1 {
      BitLenRange(x / 2);
    }
  }

  /** A magnitude shifted left by less than a limb, trimmed (ulshift and trim). */
  method Normalize(a: seq<Limb>, ns: nat) returns (r: seq<Limb>)
    requires ns < 32 && |a| > 0
    ensures Val(r) == Val(a) * Two(ns) && (r == [] || r[|r| - 1] != 0) && |r| <= |a| + 1
  {
    hide Val, Two;
    if ns == 0 {
      TwoZero();
      r := Stripped(a);
    } else {
      r := ShlSeq(a, ns);
      r := Stripped(r);
    }
  }

  /** Shifting by the leading zeros of the top limb fills it and carries nothing out. */
  lemma NormalizedTop(y: seq<Limb>, r: seq<Limb>)
    requires |y| > 0 && y[|y| - 1] > 0 && Val(r) == Val(y) * Two(Lzb(y[|y| - 1])) && (r == [] || r[|r| - 1] != 0)
    ensures |r| == |y| && 2 * r[|r| - 1] >= BASE
  {
    hide Val, Two, Pw, BitLen;
    var n: nat, top: int := |y|, y[|y| - 1];
    var s := Lzb(y[|y| - 1]);
    var t := Two(s);
    BitLenRange(top);
    TwoLimb();
    TwoAdd(BitLen(top) - 1, s);
    TwoAdd(BitLen(top), s);
    TwoMono(31, 32);
    HalfBase();
    PrefixVal(y);
    ValBound(y[..n - 1]);
    PwNext(n - 1);
    MulLe(Two(BitLen(top) - 1), top, t);
    MulLe(top + 1, Two(BitLen(top)), t);
    ScaledRange(Val(y), Val(y[..n - 1]), top, t, Pw(n - 1));
    LengthFrom(r, n);
  }

  lemma HalfBase()
    ensures Two(31) * 2 == BASE
  {
    TwoLimb();
  }

  lemma PrefixVal(y: seq<Limb>)
    requires |y| > 0
    ensures Val(y) == Val(y[..|y| - 1]) + y[|y| - 1] * Pw(|y| - 1)
  {
  }

  lemma ScaledRange(v: nat, low: nat, top: nat, t: nat, p: nat)
    requires v == low + top * p && low < p && 2 * (top * t) >= BASE && (top + 1) * t <= BASE && t > 0
    ensures 2 * (v * t) >= BASE * p && v * t < BASE * p
  {
    Dist(low, top * p, t);
    assert (top * p) * t == (top * t) * p;
    MulLe(BASE, 2 * (top * t), p);
    Assoc(2, top * t, p);
    NonNeg(low, t);
    MulLt(low, p, t);
    Dist(top, 1, t);
    MulLe(top * t + t, BASE, p);
    Dist(top * t, t, p);
  }

  /** A trimmed number of at least half of B^n but below it has n limbs, the top one large. */
  lemma LengthFrom(r: seq<Limb>, n: nat)
    requires n > 0 && (r == [] || r[|r| - 1] != 0)
    requires 2 * Val(r) >= BASE * Pw(n - 1) && Val(r) < BASE * Pw(n - 1)
    ensures |r| == n && 2 * r[|r| - 1] >= BASE
  {
    hide Val, Pw;
    PwNext(n - 1);
    ValBound(r);
    if |r| < n {
      PwMono(|r|, n - 1);
      assert false;
    }
    if |r| > n {
      ValTop(r);
      PwMono(n, |r| - 1);
      assert false;
    }
    PrefixVal(r);
    ValBound(r[..n - 1]);
    TopHalf(r[n - 1], Pw(n - 1), Val(r[..n - 1]), Val(r));
  }

  lemma TopHalf(top: nat, p: nat, low: nat, v: nat)
    requires v == low + top * p && low < p && 2 * v >= BASE * p && BASE % 2 == 0
    ensures 2 * top >= BASE
  {
    if 2 * top < BASE {
      MulLe(2 * (top + 1), BASE, p);
      Dist(top, 1, p);
      Assoc(2, top + 1, p);
      assert false;
    }
  }

  // ----- udiv -----

  lemma Unscale(x: nat, y: nat, q: nat, R: nat, t: nat)
    requires t > 0 && x * t == q * (y * t) + R && R < y * t
    ensures x == q * y + R / t && R / t < y
  {
    Assoc(q, y, t);
    Dist(x, q * y, t);
    var k := x - q * y;
    assert R == k * t;
    if k < 0 { MulLe(k, -1, t); assert false; }
    if k >= y { MulLe(y, k, t); assert false; }
    QuotientIs(R, t, k, 0);
  }

  /** Algorithm D on magnitudes: normalize, divide, shift the remainder back. */
  method KnuthMag(x: seq<Limb>, y: seq<Limb>) returns (q: seq<Limb>, r: seq<Limb>)
    requires |y| >= 2 && y[|y| - 1] != 0 && |x| > 0 && Val(x) >= Val(y)
    ensures Val(x) == Val(q) * Val(y) + Val(r) && Val(r) < Val(y)
    ensures |r| == |y|
  {
    hide Val, Two, Num, Lzb;
    var ns := Lzb(y[|y| - 1]);
    LzbRange(y[|y| - 1]);
    var xs := Normalize(x, ns);
    var ys := Normalize(y, ns);
    NormalizedTop(y, ys);
    MulLe(Val(y), Val(x), Two(ns));
    if |xs| < |ys| {
      ShorterIsSmaller(xs, ys);
      assert false;
    }
    var xa := Memory(0, xs, []);
    assert xa[..] == xs by { MemoryIs(xa[..], xs); }
    q := DivideAll(xa, ys);
    SmallNum(xa[..], |ys|, ys);
    r := xa[..|ys|];
    NumWhole(xa[..], r, 0);
    Unscale(Val(x), Val(y), Val(q), Val(r), Two(ns));
    if ns == 0 {
      TwoZero();
    } else {
      r := ShrSeq(r, ns);
    }
  }

  lemma MemoryIs(m: seq<Limb>, s: seq<Limb>)
    requires |m| == |s| && m[0..0 + |s|] == s
    ensures m == s
  {
  }

  lemma LzbRange(d: Limb)
    requires d > 0
    ensures Lzb(d) < 32
  {
    BitLenRange(d);
  }

  lemma ShorterIsSmaller(a: seq<Limb>, b: seq<Limb>)
    requires |a| < |b| && b[|b| - 1] != 0
    ensures Val(a) < Val(b)
  {
    ValBound(a);
    ValTop(b);
    PwMono(|a|, |b| - 1);
  }

  lemma SmallNum(s: seq<Limb>, n: nat, y: seq<Limb>)
    requires n == |y| <= |s| && Num(s, 0, |s|) < Val(y)
    ensures Num(s, 0, n) == Num(s, 0, |s|)
  {
    hide Num, Val;
    ValBound(y);
    SmallTail(s, 0, |s|, n);
    NumTrim(s, 0, n, |s|);
  }

  /** The case udiv gets wrong: the quotient replaces a dividend that is not zero but below the divisor. */
  predicate Loses(same: bool, x: nat, y: nat) {
    same && 0 < x < y
  }

  /**
    udiv: quotient and remainder of the magnitudes; the signs are the caller's
    business. The quotient may replace the dividend, but a short dividend is
    cleared with it before it is copied to the remainder.
   */
  method UDiv(qq: Mpz, rr: Mpz, xx: Mpz, yy: Mpz)
    requires xx.Ok() && yy.Ok() && yy.Mag() > 0
    requires qq != rr && qq != yy && rr != yy
    modifies qq, rr
    ensures Norm(qq.p) && Norm(rr.p) && (|qq.p| > 0 ==> qq.alloc) && (|rr.p| > 0 ==> rr.alloc)
    ensures if qq == xx && 0 < old(xx.Mag()) < old(yy.Mag()) then qq.p == [0] && qq.Mag() == 0 && rr.Mag() == 0
            else old(xx.Mag()) == qq.Mag() * old(yy.Mag()) + rr.Mag() && rr.Mag() < old(yy.Mag())
    ensures old(qq.alloc) ==> qq.alloc && (old(xx.Mag()) == 0 ==> qq.p == [0])
  {
    hide Val;
    ghost var X, Y := Val(xx.p), Val(yy.p);
    NonzeroLimbs(yy.p);
    if |xx.p| == 0 { ValEmpty(xx.p); }
    var c := Ucmp(xx.p, yy.p);
    if c == 0 {
      SetInt(qq, 1);
      UnitMag(qq.sn, Val(qq.p));
      SetZero(rr);
      return;
    }
    if c < 0 {
      SetZero(qq);
      Set(rr, xx);
      return;
    }
    if |yy.p| == 1 {
      OneLimb(yy.p);
      DivLimb(qq, rr, xx, yy.p[0]);
      return;
    }
    var q, r := KnuthMag(xx.p, yy.p);
    StoreMag(qq, q);
    StoreMag(rr, r);
  }

  /** The division law holds after udiv exactly when the dividend is not lost. */
  lemma LossExact(same: bool, x: nat, y: nat, q: nat, r: nat)
    requires y > 0
    requires if same && 0 < x < y then q == 0 && r == 0 else x == q * y + r && r < y
    ensures x == q * y + r && r < y <==> !same || x == 0 || x >= y
  {
  }

  lemma LosesShort(same: bool, x: nat, y: nat)
    ensures Loses(same, x, y) <==> same && 0 < x < y
  {
  }

  // ----- signed division, floored -----

  /** The floored quotient. */
  function FloorDiv(x: int, y: int): int
    requires y != 0
  {
    if y > 0 then x / y else (-x) / (-y)
  }

  function FloorMod(x: int, y: int): int
    requires y != 0
  {
    x - y * FloorDiv(x, y)
  }

  /** The floored law, and that it determines quotient and remainder. */
  lemma FloorLaw(x: int, y: int, q: int, r: int)
    requires y != 0
    ensures q == FloorDiv(x, y) && r == FloorMod(x, y)
       <==> x == y * q + r && (if y > 0 then 0 <= r < y else y < r <= 0)
  {
    var d := FloorDiv(x, y);
    if y > 0 {
      assert x == y * d + x % y;
      if x == y * q + r && 0 <= r < y { FloorUnique(x, y, q, r, d, x % y); }
    } else {
      assert -x == (-y) * d + (-x) % (-y);
      assert (-y) * d == -(y * d);
      if x == y * q + r && y < r <= 0 {
        assert (-y) * q == -(y * q);
        FloorUnique(-x, -y, q, -r, d, (-x) % (-y));
      }
    }
  }

  lemma FloorUnique(x: int, y: int, q: int, r: int, d: int, t: int)
    requires y > 0 && x == y * q + r && 0 <= r < y && x == y * d + t && 0 <= t < y
    ensures q == d && r == t
  {
    DistL(y, q, d);
    if q > d { MulLe(1, q - d, y); assert false; }
    if q < d { MulLe(q - d, -1, y); assert false; }
  }

  lemma SignedQuotient(sx: int, sy: int, Q: int, Y: int)
    requires (sx == 1 || sx == -1) && (sy == 1 || sy == -1)
    ensures (sy * Y) * (sx * sy * Q) == sx * (Q * Y)
  {
    assert Y * Q == Q * Y;
    if sx == sy {
      assert sx * sy * Q == Q;
    } else {
      assert sx * sy * Q == -Q;
      assert Y * -Q == -(Y * Q);
    }
  }

  /** Truncated division agrees with floored division when the remainder is zero or the signs agree. */
  lemma FloorAgrees(sx: int, sy: int, X: int, Y: int, Q: int, R: int)
    requires X == Q * Y + R && 0 <= R < Y && (sx == 1 || sx == -1) && (sy == 1 || sy == -1) && (R == 0 || sx == sy)
    ensures sy * Y != 0
    ensures FloorDiv(sx * X, sy * Y) == sx * sy * Q && FloorMod(sx * X, sy * Y) == sx * R
  {
    hide FloorDiv, FloorMod;
    var x, y, q := sx * X, sy * Y, sx * sy * Q;
    SignedQuotient(sx, sy, Q, Y);
    DistL(sx, Q * Y, R);
    FloorLaw(x, y, q, sx * R);
  }

  /** Otherwise the quotient is one lower and the remainder is reflected. */
  lemma FloorBelow(sx: int, sy: int, X: int, Y: int, Q: int, R: int)
    requires X == Q * Y + R && 0 < R < Y && (sx == 1 || sx == -1) && sy == -sx
    ensures sy * Y != 0
    ensures FloorDiv(sx * X, sy * Y) == -(Q + 1) && FloorMod(sx * X, sy * Y) == sy * (Y - R)
  {
    hide FloorDiv, FloorMod;
    Dist(Q, 1, Y);
    assert (sy * Y) * (-(Q + 1)) == sx * ((Q + 1) * Y);
    DistL(sx, Q * Y, R);
    FloorLaw(sx * X, sy * Y, -(Q + 1), sy * (Y - R));
  }

  /** From the magnitudes' division to the signed, floored one. */
  lemma SignedFloor(sx: int, sy: int, X: nat, Y: nat, Q: nat, R: nat)
    requires X == Q * Y + R && R < Y && (sx == 1 || sx == -1) && (sy == 1 || sy == -1)
    ensures sy * Y != 0
    ensures R == 0 || sx == sy ==> FloorDiv(sx * X, sy * Y) == sx * sy * Q && FloorMod(sx * X, sy * Y) == sx * R
    ensures R > 0 && sx != sy ==> FloorDiv(sx * X, sy * Y) == -(Q + 1) && FloorMod(sx * X, sy * Y) == sy * (Y - R)
  {
    hide FloorDiv, FloorMod;
    if R == 0 || sx == sy {
      FloorAgrees(sx, sy, X, Y, Q, R);
    } else {
      FloorBelow(sx, sy, X, Y, Q, R);
    }
  }

  lemma SignSign(sx: int, sy: int, s: int, Q: int)
    requires (sx == 1 || sx == -1) && (sy == 1 || sy == -1) && s == (if sx == sy then 1 else -1)
    ensures sx * sy == s && sx * sy * Q == s * Q
  {
  }

  /** A quotient's sign, and one more in magnitude when it is negative and something remains. */
  method RoundDown(q: Mpz, qsign: int, exact: bool, ghost Q: nat)
    requires Norm(q.p) && (|q.p| > 0 ==> q.alloc) && q.Mag() == Q && qsign in {1, -1}
    modifies q
    ensures q.Ok() && q.Value() == (if qsign > 0 || exact then qsign * Q else -(Q + 1)) && (old(q.alloc) ==> q.alloc)
  {
    hide Val;
    var qz := IsZero(q.p);
    q.sn := if qz then 0 else qsign;
    ValEmpty(q.p);
    if !exact && qsign < 0 {
      AddInt(q, 1);
      q.sn := -1;
    }
  }

  /** mpz_mdiv. */
  method MDiv(q: Mpz, x: Mpz, y: Mpz)
    requires x.Ok() && y.Ok() && y.Value() != 0 && q != x && q != y
    modifies q
    ensures q.Ok() && q.Value() == FloorDiv(old(x.Value()), old(y.Value()))
  {
    hide Val, FloorDiv, FloorMod;
    var sn1, sn2 := x.sn, y.sn;
    NonzeroValue(sn2, Val(y.p));
    if sn1 == 0 {
      q.sn, q.p, q.alloc := 0, [], false;
      ValEmpty(q.p);
      FloorZero(y.Value());
      return;
    }
    var r := new Mpz();
    ghost var X, Y := Val(x.p), Val(y.p);
    UDiv(q, r, x, y);
    SignedFloor(sn1, sn2, X, Y, Val(q.p), Val(r.p));
    var qsign := if sn1 == sn2 then 1 else -1;
    SignSign(sn1, sn2, qsign, Val(q.p));
    var rz := IsZero(r.p);
    RoundDown(q, qsign, rz, Val(q.p));
  }

  lemma NonzeroValue(sn: int, v: nat)
    requires sn * v != 0 && -1 <= sn <= 1
    ensures (sn == 1 || sn == -1) && v > 0
  {
  }

  lemma FloorZero(y: int)
    requires y != 0
    ensures FloorDiv(0, y) == 0 && FloorMod(0, y) == 0
  {
    FloorLaw(0, y, 0, 0);
  }

  /** The remainder's sign and final correction, shared by mpz_mmod and mpz_mdivmod. */
  method FixRemainder(r: Mpz, y: Mpz, sn1: int, sn2: int, ghost X: nat, ghost Q: nat)
    requires y.Ok() && r != y && Norm(r.p) && (|r.p| > 0 ==> r.alloc)
    requires sn1 in {1, -1} && sn2 == y.sn && sn2 in {1, -1}
    requires X == Q * y.Mag() + r.Mag() && r.Mag() < y.Mag()
    modifies r
    ensures y.Value() != 0 && r.Ok() && r.Value() == FloorMod(sn1 * X, y.Value())
    ensures r.Value() == 0 <==> old(r.Mag()) == 0
    ensures r.Mag() == 0 <==> old(r.Mag()) == 0
  {
    hide Val, FloorDiv, FloorMod;
    ghost var R, Y := Val(r.p), Val(y.p);
    SignedFloor(sn1, sn2, X, Y, Q, R);
    var rz := IsZero(r.p);
    if rz {
      r.sn := 0;
      return;
    }
    NonzeroLimbs(r.p);
    if sn1 == sn2 {
      r.sn := sn1;
    } else if sn1 < 0 {
      r.sn := 1;
      SubMpz(r, y, r);
      MagOf(r.sn, Val(r.p), Y - R);
    } else {
      r.sn := 1;
      AddMpz(r, y, r);
      MagOf(r.sn, Val(r.p), R as int - Y);
    }
  }

  lemma MagOf(sn: int, v: nat, t: int)
    requires sn * v == t && t != 0
    ensures v > 0
  {
  }

  /** mpz_mmod. */
  method MMod(r: Mpz, x: Mpz, y: Mpz)
    requires x.Ok() && y.Ok() && y.Value() != 0 && r != y
    modifies r
    ensures r.Ok() && r.Value() == FloorMod(old(x.Value()), old(y.Value()))
  {
    hide Val, FloorDiv, FloorMod;
    var sn1, sn2 := x.sn, y.sn;
    NonzeroValue(sn2, Val(y.p));
    if sn1 == 0 {
      FloorZero(y.Value());
      SetZero(r);
      return;
    }
    var q := new Mpz();
    ghost var X := Val(x.p);
    UDiv(q, r, x, y);
    FixRemainder(r, y, sn1, sn2, X, Val(q.p));
  }

  /** mpz_mdivmod; the quotient may replace the dividend, as in udiv. */
  method MDivMod(q: Mpz, r: Mpz, x: Mpz, y: Mpz)
    requires x.Ok() && y.Ok() && y.Value() != 0 && q != r && q != y && r != y
    modifies q, r
    ensures r.Ok()
    ensures !Loses(q == x, old(x.Mag()), old(y.Mag())) ==>
      q.Value() == FloorDiv(old(x.Value()), old(y.Value())) && r.Value() == FloorMod(old(x.Value()), old(y.Value()))
    ensures !Loses(q == x, old(x.Mag()), old(y.Mag())) && (old(x.sn) == 0 || old(x.Mag()) > 0) ==> q.Ok()
    ensures old(q.alloc) ==> q.alloc && (old(x.sn) >= 0 && old(y.sn) > 0 ==> q.Ok())
    ensures Loses(q == x, old(x.Mag()), old(y.Mag())) ==>
      q.p == [0] && q.alloc && q.Mag() == 0 && q.sn == old(x.sn) * old(y.sn) && r.Mag() == 0
  {
    hide Val, FloorDiv, FloorMod, Loses;
    var sn1, sn2 := x.sn, y.sn;
    ghost var X, Y, lost := Val(x.p), Val(y.p), Loses(q == x, Val(x.p), Val(y.p));
    NonzeroValue(sn2, Y);
    if sn1 == 0 {
      FloorZero(y.Value());
      NothingLost(q == x, X, Y);
      SetZero(q);
      SetZero(r);
      return;
    }
    LosesShort(q == x, X, Y);
    UDiv(q, r, x, y);
    ghost var Q, R := Val(q.p), Val(r.p);
    var qsign := if sn1 == sn2 then 1 else -1;
    var rz := IsZero(r.p);
    if rz {
      ExactQuotient(q.p, X, Y, Q, lost);
      if !lost { SignedFloor(sn1, sn2, X, Y, Q, R); SignSign(sn1, sn2, qsign, Q); }
      q.sn, r.sn := qsign, 0;
      return;
    }
    SignedFloor(sn1, sn2, X, Y, Q, R);
    FixRemainder(r, y, sn1, sn2, X, Q);
    SignSign(sn1, sn2, qsign, Q);
    RoundDown(q, qsign, false, Q);
  }

  lemma NothingLost(same: bool, x: nat, y: nat)
    requires x == 0
    ensures !Loses(same, x, y)
  {
  }

  /** Without a remainder the quotient is not zero, unless the dividend was lost. */
  lemma ExactQuotient(q: seq<Limb>, X: nat, Y: nat, Q: nat, lost: bool)
    requires Q == Val(q) && (if lost then Q == 0 else X == Q * Y)
    ensures !lost && X > 0 ==> Q > 0 && |q| > 0
    ensures |q| == 0 ==> Q == 0
  {
    ValEmpty(q);
  }

  // ----- floored shifts -----

  /** mpz_low_bits_set: is any of the low e bits of the magnitude set? */
  method LowBitsSet(x: Mpz, e: nat) returns (b: bool)
    ensures b <==> x.Mag() % Two(e) != 0
  {
    hide Val, Two, Pw;
    var digs, bs := e / 32, e % 32;
    var whole := if digs < |x.p| then digs else |x.p|;
    LimbSplit(x.p, whole);
    TwoPw(whole);
    var low := IsZero(x.p[..whole]);
    if digs >= |x.p| {
      assert x.p[..whole] == x.p;
      BelowPower(x.p, e);
      return !low;
    }
    assert 32 * digs + bs == e;
    if bs == 0 {
      return !low;
    }
    MaskedLimb(x.p, digs, bs);
    ValSnoc(x.p[..whole], x.p[digs] % Two(bs));
    MaskZero(Val(x.p[..whole]), x.p[digs] % Two(bs), Pw(whole));
    return !low || x.p[digs] % Two(bs) != 0;
  }

  lemma MaskZero(low: nat, d: nat, p: nat)
    requires p > 0
    ensures low + d * p == 0 <==> low == 0 && d == 0
  {
    NonNeg(d, p);
    if d > 0 { MulLe(1, d, p); }
  }

  lemma FloorNegative(v: int, t: int, k: int, m: int)
    requires t > 0 && v == t * k + m && 0 <= m < t
    ensures (-v) / t == (if m != 0 then -k - 1 else -k)
  {
    var d, r := (-v) / t, (-v) % t;
    assert -v == t * d + r;
    if m != 0 {
      DistL(t, -k, 1);
      assert t * (-k) == -(t * k);
      FloorUnique(-v, t, -k - 1, t - m, d, r);
    } else {
      assert t * (-k) == -(t * k);
      FloorUnique(-v, t, -k, 0, d, r);
    }
  }

  lemma FloorShift(sn: int, v: int, t: int, k: int, m: int)
    requires t > 0 && v == t * k + m && 0 <= m < t && -1 <= sn <= 1
    ensures (sn * v) / t == (if sn < 0 && m != 0 then -k - 1 else sn * k)
  {
    if sn < 0 {
      assert sn * v == -v && sn * k == -k;
      FloorNegative(v, t, k, m);
    } else if sn == 0 {
      assert sn * v == 0 && sn * k == 0;
    } else {
      assert sn * v == v && sn * k == k;
      FloorUnique(v, t, k, m, v / t, v % t);
    }
  }

  /** sp_bigint_shr for n >= 0: floored division by 2^n. */
  method Shr(a: Mpz, n: nat) returns (r: Mpz)
    requires a.Ok()
    ensures fresh(r) && r.Ok() && r.Value() == a.Value() / Two(n)
  {
    hide Val, Two;
    r := new Mpz();
    Div2exp(r, a, n);
    FloorShift(a.sn, Val(a.p), Two(n), Val(a.p) / Two(n), Val(a.p) % Two(n));
    var low := LowBitsSet(a, n);
    if a.sn < 0 && low {
      var one := new Mpz();
      SetInt(one, 1);
      var s := new Mpz();
      SubMpz(s, r, one);
      r := s;
    }
  }

  /** sp_bigint_shl for n >= 0; false is the RangeError. */
  method Shl(a: Mpz, n: nat) returns (r: Mpz, ok: bool)
    requires a.Ok()
    ensures fresh(r) && (ok <==> n == 0 || 32 * |a.p| + n <= BIT_LIMIT)
    ensures ok ==> r.Ok() && r.Value() == a.Value() * Two(n)
  {
    r := new Mpz();
    ok := Mul2exp(r, a, n);
  }

  lemma ShiftBack(v: int, t: int, w: int)
    requires t > 0 && w == v * t
    ensures w / t == v
  {
    FloorUnique(w, t, v, 0, w / t, w % t);
  }

  /** A right shift undoes a left shift. */
  method ShlThenShr(a: Mpz, n: nat) returns (r: Mpz, ok: bool)
    requires a.Ok()
    ensures 32 * |a.p| + n <= BIT_LIMIT ==> ok
    ensures ok ==> r.Value() == a.Value()
  {
    hide Val, Two;
    ghost var v := a.Value();
    var s;
    s, ok := Shl(a, n);
    r := s;
    if ok {
      ghost var w := s.Value();
      ShiftBack(v, Two(n), w);
      r := Shr(s, n);
    }
  }
}
