/**
  Signed big integers (lib/sp_bigint.c): sign and magnitude. `p` is the used
  part of the limb buffer (its length is sz); `alloc` tells whether a buffer
  exists at all, which decides how zero() writes zero.
 */
module Integers {
  import opened Limbs
  import opened Mpn
  import opened Shifts

  /** No high zero limb, except that zero may be the single limb 0. */
  predicate Norm(s: seq<Limb>) {
    |s| > 1 ==> s[|s| - 1] != 0
  }

  class Mpz {
    var sn: int
    var p: seq<Limb>
    var alloc: bool

    /** A sign of 0 means zero; the converse does not hold. */
    ghost predicate Shaped()
      reads this
    {
      && -1 <= sn <= 1 && Norm(p)
      && (|p| > 0 ==> alloc)
      && (|p| == 0 ==> sn == 0)
      && (sn == 0 ==> Val(p) == 0)
    }

    /** What every operation leaves: sign 1 may still hold the limb 0, sign -1 may not. */
    ghost predicate Ok()
      reads this
    {
      Shaped() && (sn < 0 ==> Val(p) > 0)
    }

    ghost function Mag(): (v: nat)
      reads this
    {
      Val(p)
    }

    ghost function Value(): (v: int)
      reads this
    {
      sn * Val(p)
    }

    constructor ()
      ensures sn == 0 && p == [] && !alloc && Ok() && Value() == 0
    {
      sn, p, alloc := 0, [], false;
    }
  }

  /** The limbs that trim() keeps. */
  function Stripped(s: seq<Limb>): (t: seq<Limb>)
    ensures t <= s && Val(t) == Val(s)
    ensures t == [] || t[|t| - 1] != 0
  {
    if s != [] && s[|s| - 1] == 0 then Stripped(s[..|s| - 1]) else s
  }

  method Trim(x: Mpz)
    modifies x
    ensures x.p == Stripped(old(x.p)) && x.alloc == old(x.alloc)
    ensures x.sn == (if x.p == [] then 0 else old(x.sn))
  {
    while |x.p| > 0 && x.p[|x.p| - 1] == 0
      invariant Stripped(x.p) == Stripped(old(x.p))
      invariant x.sn == old(x.sn) && x.alloc == old(x.alloc)
      decreases |x.p|
    {
      x.p := x.p[..|x.p| - 1];
    }
    if |x.p| == 0 {
      x.sn := 0;
    }
  }

  lemma {:induction false} StrippedZero(s: seq<Limb>)
    ensures Val(s) == 0 <==> Stripped(s) == []
  {
    var t := Stripped(s);
    if t != [] {
      ValTop(t);
    }
  }

  /** zero(). */
  method SetZero(x: Mpz)
    modifies x
    ensures x.sn == 0 && x.alloc == old(x.alloc) && x.p == (if x.alloc then [0] else [])
    ensures x.Ok() && x.Mag() == 0 && x.Value() == 0
  {
    x.sn := 0;
    x.p := if x.alloc then [0] else [];
    ValZeros(x.p);
  }

  method Set(y: Mpz, x: Mpz)
    modifies y
    ensures y.p == old(x.p) && y.sn == old(x.sn)
    ensures y.alloc == (old(y.alloc) || |old(x.p)| > 0)
  {
    y.alloc := y.alloc || |x.p| > 0;
    y.p, y.sn := x.p, x.sn;
  }

  /** mpz_set_int for a signed double limb. */
  method SetInt(y: Mpz, v: int)
    requires -(BASE * BASE) < v < BASE * BASE
    modifies y
    ensures y.Ok() && y.Value() == v && (old(y.alloc) ==> y.alloc)
    ensures |y.p| <= (if -BASE < v < BASE then 1 else 2)
  {
    if v == 0 {
      y.sn, y.p := 0, [];
      return;
    }
    y.sn := if v > 0 then 1 else -1;
    var u := if v > 0 then v else -v;
    y.alloc := true;
    if u >= BASE {
      y.p := [u % BASE] + [u / BASE];
      OneLimb([u % BASE]);
      ValSnoc([u % BASE], u / BASE);
      assert Pw(1) == BASE;
    } else {
      y.p := [u];
      OneLimb(y.p);
    }
  }

  /** Writing a computed magnitude and a sign, then trimming. */
  method Store(z: Mpz, limbs: seq<Limb>, sign: int)
    requires sign == 1 || sign == -1
    modifies z
    ensures z.Ok() && z.alloc && z.Mag() == Val(limbs) && z.Value() == sign * Val(limbs)
    ensures z.p == Stripped(limbs) && z.sn == (if z.p == [] then 0 else sign) && (z.Mag() == 0 ==> z.sn == 0)
  {
    z.p, z.sn := limbs, sign;
    z.alloc := true;
    Trim(z);
    StrippedZero(limbs);
  }

  lemma UnitMag(sn: int, v: nat)
    requires sn * v == 1 && -1 <= sn <= 1
    ensures sn == 1 && v == 1
  {
  }

  lemma NonzeroLimbs(p: seq<Limb>)
    requires Val(p) > 0
    ensures |p| > 0
  {
  }

  // ----- magnitudes -----

  lemma NumWhole(s: seq<Limb>, a: seq<Limb>, o: nat)
    requires o + |a| <= |s| && s[o..o + |a|] == a
    ensures Num(s, o, |a|) == Val(a)
  {
  }

  /** A fresh limb memory: n zero limbs, then a, then b. */
  method Memory(n: nat, a: seq<Limb>, b: seq<Limb>) returns (m: array<Limb>)
    ensures fresh(m) && m.Length == n + |a| + |b|
    ensures Num(m[..], n, |a|) == Val(a) && Num(m[..], n + |a|, |b|) == Val(b)
    ensures m[..][n..n + |a|] == a && m[..][n + |a|..] == b
  {
    var s := Zeros(n) + a + b;
    m := new Limb[|s|](i requires 0 <= i < |s| => s[i]);
    assert m[..] == s;
    assert s[n..n + |a|] == a && s[n + |a|..] == b;
    assert s[n + |a|..n + |a| + |b|] == b;
  }

  /** uadd: |a| >= |b|. */
  method AddMag(a: seq<Limb>, b: seq<Limb>) returns (r: seq<Limb>)
    requires |a| >= |b|
    ensures |r| == |a| + 1 && Val(r) == Val(a) + Val(b)
  {
    hide Num;
    var n := |a|;
    var m := Memory(n, a, b);
    var carry := Add(m, 0, n, n, n + n, |b|);
    r := m[..n] + [carry];
    ValSnoc(m[..n], carry);
    NumWhole(m[..], m[..n], 0);
  }

  /** usub: the first magnitude is not the smaller. */
  method SubMag(a: seq<Limb>, b: seq<Limb>) returns (r: seq<Limb>)
    requires |a| >= |b| && Val(a) >= Val(b)
    ensures |r| == |a| && Val(r) == Val(a) - Val(b)
  {
    hide Num, Val, Pw;
    var n := |a|;
    var m := Memory(n, a, b);
    var borrow := Sub(m, 0, n, n, n + n, |b|);
    r := m[..n];
    NumWhole(m[..], r, 0);
    ValBound(r);
    if borrow == 1 { ValBound(a); assert false; }
  }

  /** a + d with the carry run through the limbs. */
  method AddLimb(a: seq<Limb>, d: Limb) returns (r: seq<Limb>)
    ensures |r| == |a| + 1 && Val(r) == Val(a) + d
  {
    hide Num;
    var n := |a|;
    var m := Memory(0, a, []);
    var carry := Propagate(m, 0, n, d);
    r := m[..n] + [carry];
    ValSnoc(m[..n], carry);
    NumWhole(m[..], m[..n], 0);
  }

  /** a - d with the borrow run through the limbs. */
  method SubLimb(a: seq<Limb>, d: Limb) returns (r: seq<Limb>)
    requires |a| > 0 && Val(a) >= d
    ensures |r| == |a| && Val(r) == Val(a) - d
  {
    assert Val([d]) == d;
    r := SubMag(a, [d]);
  }

  /** A longer normalized magnitude is larger. */
  lemma LongerIsLarger(a: seq<Limb>, b: seq<Limb>)
    requires Norm(a) && 0 < |b| < |a|
    ensures Val(b) < Val(a)
  {
    ValTop(a);
    ValBound(b);
    PwMono(|b|, |a| - 1);
  }

  /** ucmp: by length, then limb by limb. An empty magnitude is below [0]. */
  method Ucmp(a: seq<Limb>, b: seq<Limb>) returns (c: int)
    requires Norm(a) && Norm(b)
    ensures (|a| == 0 <==> |b| == 0) ==> c == (if Val(a) < Val(b) then -1 else if Val(a) > Val(b) then 1 else 0)
    ensures |a| == 0 < |b| ==> c == -1
    ensures |b| == 0 < |a| ==> c == 1
  {
    if |a| < |b| {
      if |a| > 0 { LongerIsLarger(b, a); }
      return -1;
    }
    if |a| > |b| {
      if |b| > 0 { LongerIsLarger(a, b); }
      return 1;
    }
    c := Cmp(a, b);
  }

  lemma SignedSum(sx: int, sy: int, a: int, b: int)
    requires sx == sy
    ensures sx * (a + b) == sx * a + sy * b
  {
    DistL(sx, a, b);
  }

  lemma SignedDiff(sx: int, sy: int, a: int, b: int)
    requires sx == -sy
    ensures sx * (a - b) == sx * a + sy * b
  {
    DistL(sx, a, b);
    assert sy * b == -(sx * b);
  }

  /** mpz_add. */
  method AddMpz(zz: Mpz, x: Mpz, y: Mpz)
    requires x.Shaped() && y.Shaped()
    modifies zz
    ensures zz.Ok() && zz.Value() == old(x.Value() + y.Value()) && (zz.Mag() == 0 ==> zz.sn == 0)
    decreases |x.p| == 1
  {
    hide Val;
    if x.sn == 0 {
      Set(zz, y);
      Trim(zz);
      TrimOk(old(y.p), old(y.sn), zz.p, zz.sn);
      return;
    }
    if y.sn == 0 {
      Set(zz, x);
      Trim(zz);
      TrimOk(old(x.p), old(x.sn), zz.p, zz.sn);
      return;
    }
    if |y.p| == 1 && |x.p| > 1 {
      OneLimb(y.p);
      if x.sn == y.sn {
        var r := AddLimb(x.p, y.p[0]);
        SignedSum(x.sn, y.sn, Val(x.p), y.p[0]);
        Store(zz, r, x.sn);
      } else {
        LongerIsLarger(x.p, y.p);
        var r := SubLimb(x.p, y.p[0]);
        SignedDiff(x.sn, y.sn, Val(x.p), y.p[0]);
        Store(zz, r, x.sn);
      }
      return;
    }
    if |x.p| == 1 && |y.p| > 1 {
      AddMpz(zz, y, x);
      return;
    }
    if x.sn == y.sn {
      var r;
      if |x.p| >= |y.p| {
        r := AddMag(x.p, y.p);
      } else {
        r := AddMag(y.p, x.p);
      }
      SignedSum(x.sn, y.sn, Val(x.p), Val(y.p));
      Store(zz, r, x.sn);
      return;
    }
    AddOpposite(zz, x, y);
  }

  /** mpz_add with opposite signs: the smaller magnitude from the larger. */
  method AddOpposite(zz: Mpz, x: Mpz, y: Mpz)
    requires x.Shaped() && y.Shaped() && x.sn != 0 && y.sn == -x.sn
    modifies zz
    ensures zz.Ok() && zz.Value() == old(x.Value() + y.Value()) && (zz.Mag() == 0 ==> zz.sn == 0)
  {
    hide Val;
    ghost var X, Y, sx, sy := Val(x.p), Val(y.p), x.sn, y.sn;
    var mg := Ucmp(x.p, y.p);
    SignedDiff(sx, sy, X, Y);
    SignedDiff(sy, sx, Y, X);
    if mg == 0 {
      zz.sn, zz.p, zz.alloc := 0, [], true;
      ValEmpty(zz.p);
    } else if mg > 0 {
      LengthOrder(y.p, x.p);
      var r := SubMag(x.p, y.p);
      Store(zz, r, x.sn);
    } else {
      LengthOrder(x.p, y.p);
      var r := SubMag(y.p, x.p);
      Store(zz, r, y.sn);
    }
  }

  /** The limbs of a number, without a high zero. */
  ghost function LimbsOf(v: nat): (p: seq<Limb>)
    ensures Norm(p) && Val(p) == v && (p == [] <==> v == 0)
  {
    if v == 0 then []
    else
      ValCons(v % BASE, LimbsOf(v / BASE));
      [v % BASE] + LimbsOf(v / BASE)
  }

  lemma LimbCount(p: seq<Limb>, n: nat)
    requires Norm(p) && 0 < n && Pw(n) <= Val(p) < Pw(n + 1)
    ensures |p| == n + 1
  {
    hide Val, Pw;
    ValBound(p);
    if |p| <= n {
      PwMono(|p|, n);
      assert false;
    }
    ValTop(p);
    if |p| > n + 1 {
      PwMono(n + 1, |p| - 1);
      assert false;
    }
  }

  lemma OneLimb(s: seq<Limb>)
    requires |s| == 1
    ensures Val(s) == s[0]
  {
    assert s[..0] == [];
  }

  lemma LengthOrder(a: seq<Limb>, b: seq<Limb>)
    requires Norm(a) && 0 < |b| && Val(a) < Val(b)
    ensures |a| <= |b|
  {
    if |a| > |b| {
      LongerIsLarger(a, b);
      assert false;
    }
  }

  lemma TrimOk(p: seq<Limb>, sn: int, q: seq<Limb>, sq: int)
    requires q == Stripped(p) && sq == (if q == [] then 0 else sn)
    ensures Norm(q) && Val(q) == Val(p) && sq * Val(q) == sn * Val(p)
    ensures q != [] ==> Val(q) > 0
    ensures sn == 0 && Val(p) == 0 ==> q == []
  {
    StrippedZero(p);
  }

  /** mpz_sub; when z is x the subtraction is done in place and may leave [0] with sign 1. */
  method SubMpz(z: Mpz, x: Mpz, y: Mpz)
    requires x.Ok() && y.Ok()
    modifies z
    ensures z.Ok() && z.Value() == old(x.Value() - y.Value())
    ensures z == x && old(x.sn) > 0 && old(y.sn) > 0 && old(x.Mag()) >= old(y.Mag()) ==> z.sn == 1
  {
    hide Val;
    if z == x && x.sn > 0 && y.sn > 0 {
      var c := Ucmp(x.p, y.p);
      if c >= 0 {
        if Val(x.p) > Val(y.p) { LengthOrder(y.p, x.p); }
        if |x.p| < |y.p| { LongerIsLarger(y.p, x.p); }
        var r := SubMag(x.p, y.p);
        x.p := Digits(r);
        return;
      }
    }
    var u := new Mpz();
    u.p, u.sn, u.alloc := y.p, -y.sn, y.alloc;
    assert u.Value() == -y.Value() by { assert (-y.sn) * Val(y.p) == -(y.sn * Val(y.p)); }
    AddMpz(z, x, u);
  }

  /** digits(): high zero limbs dropped, but never the last limb. */
  function Digits(s: seq<Limb>): (t: seq<Limb>)
    ensures Val(t) == Val(s) && Norm(t) && (s != [] ==> t != [])
  {
    if |s| > 1 && s[|s| - 1] == 0 then Digits(s[..|s| - 1]) else s
  }

  /** mpz_add_int: n added to the magnitude; a nonzero sign is kept. */
  method AddInt(x: Mpz, n: Limb)
    requires x.Ok()
    modifies x
    ensures Norm(x.p) && x.Mag() == old(x.Mag()) + n && x.alloc == (old(x.alloc) || n > 0)
    ensures |x.p| > 0 ==> x.alloc
    ensures n > 0 ==> |x.p| > 0
    ensures old(x.sn) != 0 && n > 0 ==> x.sn == old(x.sn)
    ensures -1 <= x.sn <= 1
    ensures n == 0 ==> x.p == old(x.p) && x.sn == old(x.sn)
    ensures old(x.p) == [] && n > 0 ==> x.sn == 1
  {
    if n == 0 { return; }
    var r := AddLimb(x.p, n);
    if r[|x.p|] != 0 && x.sn == 0 {
      x.sn := 1;
    }
    x.p, x.alloc := r, true;
    Trim(x);
    StrippedZero(r);
  }

  /** mpz_cmp; of two zeros the one with fewer limbs is the smaller. */
  method CmpMpz(x: Mpz, y: Mpz) returns (c: int)
    requires x.Ok() && y.Ok()
    ensures x.Mag() != 0 || y.Mag() != 0 ==> (c < 0 <==> x.Value() < y.Value()) && (c > 0 <==> x.Value() > y.Value())
    ensures x.Mag() == 0 && y.Mag() == 0 ==> (c < 0 <==> |x.p| < |y.p|) && (c > 0 <==> |x.p| > |y.p|)
  {
    hide Val;
    SignedOrder(x.sn, Val(x.p), y.sn, Val(y.p));
    ZeroShort(x.p);
    ZeroShort(y.p);
    if x.sn < 0 && y.sn > 0 { return -1; }
    if x.sn > 0 && y.sn < 0 { return 1; }
    var a := Ucmp(x.p, y.p);
    if |x.p| == 0 { ValEmpty(x.p); }
    if |y.p| == 0 { ValEmpty(y.p); }
    if x.sn >= 0 && y.sn >= 0 { return a; }
    return -a;
  }

  lemma ZeroShort(p: seq<Limb>)
    requires Norm(p)
    ensures Val(p) == 0 ==> |p| <= 1
  {
    hide Val;
    if |p| > 1 { ValTop(p); }
  }

  /** The order of two signed magnitudes. */
  lemma SignedOrder(sx: int, X: int, sy: int, Y: int)
    requires -1 <= sx <= 1 && -1 <= sy <= 1
    requires (sx < 0 ==> X > 0) && (sy < 0 ==> Y > 0) && (sx == 0 ==> X == 0) && (sy == 0 ==> Y == 0)
    ensures sx * X == (if sx < 0 then -X else X) && sy * Y == if sy < 0 then -Y else Y
  {
  }

  // ----- shifts by a bit count -----

  /** Results above this many bits raise RangeError. */
  const BIT_LIMIT: nat := 128 * 1024 * 1024 * 8

  /** 128 MB of limbs, 2^30 bits. */
  lemma LimitIs()
    ensures BIT_LIMIT == 0x4000_0000
  {
  }

  function Zeros(n: nat): (s: seq<Limb>)
    ensures |s| == n && Val(s) == 0
  {
    var s := seq(n, i => 0);
    ValZeros(s);
    s
  }

  /** uzero_p. */
  method IsZero(s: seq<Limb>) returns (b: bool)
    ensures b <==> Val(s) == 0
  {
    var i := |s|;
    while i > 0
      invariant 0 <= i <= |s|
      invariant forall k :: i <= k < |s| ==> s[k] == 0
    {
      i := i - 1;
      if s[i] != 0 {
        LimbBound(s, i);
        return false;
      }
    }
    ValZeros(s);
    return true;
  }

  lemma {:induction false} LimbBound(s: seq<Limb>, i: nat)
    requires i < |s|
    ensures Val(s) >= s[i]
  {
    var n := |s| - 1;
    if i < n {
      LimbBound(s[..n], i);
      NonNeg(s[n], Pw(n));
    } else {
      MulLe(1, Pw(n), s[n]);
    }
  }

  /** The limbs of a shifted left by 0 < cnt < 32 bits, one limb longer. */
  method ShlSeq(a: seq<Limb>, cnt: nat) returns (r: seq<Limb>)
    requires 0 < cnt < 32 && |a| > 0
    ensures |r| == |a| + 1 && Val(r) == Val(a) * Two(cnt)
  {
    hide Num, Two;
    var n := |a|;
    var m := Memory(n, a, []);
    var carry := LShift(m, 0, n, n, cnt);
    r := m[..n] + [carry];
    ValSnoc(m[..n], carry);
    NumWhole(m[..], m[..n], 0);
  }

  /** The limbs of a shifted right by 0 < cnt < 32 bits. */
  method ShrSeq(a: seq<Limb>, cnt: nat) returns (r: seq<Limb>)
    requires 0 < cnt < 32 && |a| > 0
    ensures |r| == |a| && Val(r) == Val(a) / Two(cnt)
  {
    hide Num, Two;
    var n := |a|;
    var m := Memory(n, a, []);
    var out := RShift(m, 0, n, n, cnt);
    r := m[..n];
    NumWhole(m[..], r, 0);
  }

  lemma ShiftByLimbs(v: int, e: nat)
    ensures v * Pw(e / 32) * Two(e % 32) == v * Two(e)
  {
    TwoPw(e / 32);
    TwoAdd(32 * (e / 32), e % 32);
    assert 32 * (e / 32) + e % 32 == e;
    Assoc(v, Pw(e / 32), Two(e % 32));
  }

  /** mpz_mul_2exp: false is the RangeError, raised before anything is written. */
  method Mul2exp(z: Mpz, x: Mpz, e: nat) returns (ok: bool)
    requires x.Ok()
    modifies z
    ensures ok <==> e == 0 || 32 * |old(x.p)| + e <= BIT_LIMIT
    ensures ok ==> z.Ok() && z.Value() == old(x.Value()) * Two(e) && z.Mag() == old(x.Mag()) * Two(e)
    ensures ok && old(x.sn) != 0 && old(x.Mag()) > 0 ==> z.sn == old(x.sn)
    ensures !ok ==> z.p == old(z.p) && z.sn == old(z.sn) && z.alloc == old(z.alloc)
  {
    hide Val, Two, Pw;
    if e == 0 {
      Set(z, x);
      Trim(z);
      TrimOk(old(x.p), old(x.sn), z.p, z.sn);
      TwoZero();
      return true;
    }
    if e > BIT_LIMIT || 32 * |x.p| + e > BIT_LIMIT {
      return false;
    }
    var sn, digs, bs := x.sn, e / 32, e % 32;
    ghost var v := Val(x.p);
    ShiftByLimbs(v, e);
    ShiftByLimbs(sn * v, e);
    var y := Zeros(digs) + x.p;
    ValAppend(Zeros(digs), x.p);
    ghost var w := v * Pw(digs);
    NonNeg(v, Pw(digs));
    var yz := IsZero(y);
    if bs != 0 && yz {
      SetZero(z);
    } else {
      if bs != 0 {
        var r := ShlSeq(y, bs);
        z.p, z.alloc := r, true;
      } else {
        TwoZero();
        z.p, z.alloc := y, z.alloc || |y| > 0;
      }
      Trim(z);
    }
    GiveSign(z, sn, v, Two(e));
    return true;
  }

  /** The sign of a shifted magnitude. */
  method GiveSign(z: Mpz, sn: int, ghost v: nat, ghost t: nat)
    requires -1 <= sn <= 1 && (sn == 0 ==> v == 0) && t > 0 && z.Mag() == v * t
    requires Norm(z.p) && (|z.p| > 0 ==> z.alloc)
    modifies z`sn
    ensures z.Ok() && z.Value() == (sn * v) * t && (v > 0 ==> z.sn == sn)
  {
    hide Val;
    var zz := IsZero(z.p);
    z.sn := if zz then 0 else sn;
    SignScale(sn, z.sn, v, Val(z.p), t);
    if Val(z.p) == 0 { ZeroFactor(v, t); }
    ValEmpty(z.p);
  }

  lemma TwoZero()
    ensures Two(0) == 1
  {
  }

  lemma ZeroFactor(v: nat, t: nat)
    requires v * t == 0 && t > 0
    ensures v == 0
  {
  }

  lemma SignScale(sn: int, zs: int, v: nat, m: nat, t: nat)
    requires m == v * t && t > 0 && zs == (if m == 0 then 0 else sn)
    ensures zs * m == (sn * v) * t
  {
    Assoc(sn, v, t);
  }

  lemma LimbSplit(s: seq<Limb>, k: nat)
    requires k <= |s|
    ensures Val(s) == Val(s[k..]) * Pw(k) + Val(s[..k]) && Val(s[..k]) < Pw(k)
    ensures Val(s) / Pw(k) == Val(s[k..]) && Val(s) % Pw(k) == Val(s[..k])
  {
    hide Val, Pw;
    assert s == s[..k] + s[k..];
    ValAppend(s[..k], s[k..]);
    ValBound(s[..k]);
    QuotientIs(Val(s), Pw(k), Val(s[k..]), Val(s[..k]));
  }

  lemma DivDiv(v: nat, a: nat, b: nat)
    requires a > 0 && b > 0
    ensures a * b > 0 && v / a / b == v / (a * b)
  {
    var q, r := v / a, v % a;
    var k, t := q / b, q % b;
    assert v == a * q + r;
    assert q == b * k + t;
    assert v == (a * b) * k + (a * t + r) by {
      DistL(a, b * k, t);
      Assoc(a, b, k);
    }
    NonNeg(a, t);
    MulLe(t, b - 1, a);
    Dist(b, 1, a);
    assert a * t + r < a * b;
    NonNeg(a, b);
    QuotientIs(v, a * b, k, a * t + r);
  }

  /** The magnitude shifted right by e bits, before trimming. */
  method ShrMag(s: seq<Limb>, e: nat) returns (r: seq<Limb>)
    requires e / 32 < |s|
    ensures Val(r) == Val(s) / Two(e) && |r| == |s| - e / 32
  {
    hide Val, Two;
    var digs, bs := e / 32, e % 32;
    r := s[digs..];
    LimbSplit(s, digs);
    TwoPw(digs);
    TwoAdd(32 * digs, bs);
    assert 32 * digs + bs == e;
    DivDiv(Val(s), Pw(digs), Two(bs));
    if bs != 0 {
      r := ShrSeq(r, bs);
    } else {
      TwoZero();
    }
  }

  /** mpz_div_2exp: the magnitude is shifted, the sign kept. */
  method Div2exp(z: Mpz, x: Mpz, e: nat)
    requires x.Ok()
    modifies z
    ensures z.Ok() && z.Mag() == old(x.Mag()) / Two(e)
    ensures z.Value() == old(x.sn) * (old(x.Mag()) / Two(e))
  {
    hide Val, Two;
    if e == 0 {
      TwoZero();
      if z != x {
        Set(z, x);
        Trim(z);
        TrimOk(old(x.p), old(x.sn), z.p, z.sn);
      }
      return;
    }
    var sn := x.sn;
    if e / 32 >= |x.p| {
      BelowPower(x.p, e);
      SetZero(z);
      return;
    }
    var r := ShrMag(x.p, e);
    z.p, z.alloc := r, true;
    Trim(z);
    var zz := IsZero(z.p);
    z.sn := if zz then 0 else sn;
    if sn == 0 { assert 0 / Two(e) == 0; }
    ValEmpty(z.p);
  }

  lemma BelowPower(s: seq<Limb>, e: nat)
    requires e / 32 >= |s|
    ensures Val(s) < Two(e) && Val(s) / Two(e) == 0 && Val(s) % Two(e) == Val(s)
  {
    hide Val, Two, Pw;
    ValBound(s);
    TwoPw(|s|);
    TwoMono(32 * |s|, e);
    QuotientIs(Val(s), Two(e), 0, Val(s));
  }

  /** mpz_mod_2exp: the low e bits of the magnitude, with x's sign. */
  method Mod2exp(z: Mpz, x: Mpz, e: nat)
    requires x.Ok()
    modifies z
    ensures z.Ok() && z.Mag() == old(x.Mag()) % Two(e)
    ensures z.Value() == old(x.sn) * (old(x.Mag()) % Two(e))
    ensures old(x.Mag()) >= Two(e) && z.Mag() == 0 ==> z.p == [] || e == 0
  {
    hide Val, Two;
    if e == 0 {
      TwoZero();
      z.alloc := false;
      SetZero(z);
      return;
    }
    var k, bs := e / 32, e % 32;
    if k >= |x.p| {
      BelowPower(x.p, e);
      if z != x {
        Set(z, x);
        Trim(z);
        TrimOk(old(x.p), old(x.sn), z.p, z.sn);
      }
      return;
    }
    var sn := x.sn;
    var r := LowMag(x.p, e);
    KeepSigned(z, r, sn);
    if sn == 0 { ZeroMod(e); }
  }

  lemma ZeroMod(e: nat)
    ensures 0 % Two(e) == 0
  {
  }

  /** The limbs r under a given sign, trimmed. */
  method KeepSigned(z: Mpz, r: seq<Limb>, sn: int)
    requires -1 <= sn <= 1 && (sn == 0 ==> Val(r) == 0)
    modifies z
    ensures z.Ok() && z.Mag() == Val(r) && z.Value() == sn * Val(r) && z.alloc && (z.Mag() == 0 ==> z.p == [])
  {
    hide Val;
    z.p, z.sn, z.alloc := r, sn, true;
    Trim(z);
    TrimOk(r, sn, z.p, z.sn);
    StrippedZero(r);
  }

  /** The limbs of the low e bits, the partial limb masked. */
  method LowMag(s: seq<Limb>, e: nat) returns (r: seq<Limb>)
    requires e / 32 < |s|
    ensures Val(r) == Val(s) % Two(e)
  {
    hide Val, Two, Pw;
    var k, bs := e / 32, e % 32;
    LimbSplit(s, k);
    TwoPw(k);
    r := s[..k];
    if bs > 0 {
      MaskedLimb(s, k, bs);
      r := r + [s[k] % Two(bs)];
      assert 32 * k + bs == e;
    }
  }

  lemma MaskedLimb(s: seq<Limb>, k: nat, bs: nat)
    requires k < |s| && 0 < bs < 32
    ensures 0 <= s[k] % Two(bs) < BASE && Val(s[..k] + [s[k] % Two(bs)]) == Val(s) % Two(32 * k + bs)
  {
    hide Val, Two, Pw;
    var d, q, rest := s[k], Two(bs), Val(s[k + 1..]);
    LimbSplit(s, k);
    TwoPw(k);
    TwoAdd(32 * k, bs);
    assert s[k..] == [d] + s[k + 1..];
    ValAppend([d], s[k + 1..]);
    OneLimb([d]);
    PwOne();
    TwoSplit(bs);
    LowPart(Val(s), Val(s[..k]), d, rest, Pw(k), q, Two(32 - bs));
    ValSnoc(s[..k], d % q);
  }

  lemma PwOne()
    ensures Pw(1) == BASE
  {
  }

  /** d + rest * BASE, split at the bit that q divides. */
  lemma BitSplit(d: nat, rest: nat, q: nat, c: nat)
    requires q > 0 && q * c == BASE && d < BASE
    ensures d + rest * BASE == q * (d / q + rest * c) + d % q && 0 <= d % q < BASE && d / q + rest * c >= 0
  {
    var k := d / q;
    assert d == q * k + d % q;
    assert q * (rest * c) == rest * (q * c);
    DistL(q, k, rest * c);
    NonNeg(rest, c);
  }

  /** v = low + (d + rest * BASE) * p, with q dividing BASE. */
  lemma LowPart(v: nat, low: nat, d: nat, rest: nat, p: nat, q: nat, c: nat)
    requires p > 0 && q > 0 && q * c == BASE && v == (d + rest * BASE) * p + low && low < p && d < BASE
    ensures p * q > 0 && v % (p * q) == low + (d % q) * p && 0 <= d % q < BASE
  {
    BitSplit(d, rest, q, c);
    Recombine(v, low, d % q, d / q + rest * c, p, q);
  }

  lemma Recombine(v: nat, low: nat, r: nat, h: nat, p: nat, q: nat)
    requires p > 0 && q > 0 && v == (q * h + r) * p + low && low < p && r < q
    ensures p * q > 0 && v % (p * q) == low + r * p
  {
    MulLt(0, q, p);
    Regroup(v, low, r, h, p, q);
    QuotientIs(v, p * q, h, low + r * p);
  }

  lemma Regroup(v: int, low: int, r: int, h: int, p: int, q: int)
    requires p > 0 && v == (q * h + r) * p + low && 0 <= low < p && 0 <= r < q
    ensures v == (p * q) * h + (low + r * p) && 0 <= low + r * p < p * q
  {
    Dist(q * h, r, p);
    assert (q * h) * p == (p * q) * h;
    MulLe(r, q - 1, p);
    Dist(q, 1, p);
    NonNeg(r, p);
  }
}
