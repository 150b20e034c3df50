/** mpz_mul and every route it dispatches to (lib/sp_bigint.c:772-826, 1864-2432). */
module MulMpz {
  import opened Limbs
  import opened Mpn
  import opened Mul
  import K = Karatsuba
  import Toom3
  import ToomSqr
  import opened Shifts
  import opened LimbBits
  import opened Integers

  /** Rows of the longer operand times the shorter one, carries propagated to the end. */
  method MulRows(m: array<Limb>, r: nat, a: nat, an: nat, b: nat, bn: nat)
    requires r + an + bn <= m.Length && a + an <= m.Length && b + bn <= m.Length
    requires Apart(r, an + bn, a, an) && Apart(r, an + bn, b, bn)
    modifies m
    ensures Num(m[..], r, an + bn) == old(Num(m[..], a, an) * Num(m[..], b, bn))
    ensures Same(old(m[..]), m[..], r, an + bn)
  {
    hide Num, Val, Pw;
    ghost var M := m[..];
    Zero(m, r, an + bn);
    NumZero(M, a);
    NumBound(M, a, an);
    NumBound(M, b, bn);
    ghost var V := Num(M, b, bn);
    K.ProductBound(Num(M, a, an), V, an, bn);
    for j := 0 to an
      invariant Same(M, m[..], r, an + bn)
      invariant Num(m[..], r, an + bn) == Num(M, a, j) * V
    {
      NumStep(M, a, j);
      Dist(Num(M, a, j), M[a + j] * Pw(j), V);
      NumKeep(M, m[..], r, an + bn, b, bn);
      if m[a + j] != 0 {
        ghost var lost := AddMulAt(m, r, an + bn, j, b, bn, m[a + j]);
        PrefixBound(M, a, j + 1, an);
        MulLe(Num(M, a, j + 1), Num(M, a, an), V);
        Commute(V, M[a + j], Pw(j));
        LostZero(lost, Pw(an + bn), Num(m[..], r, an + bn), Num(M, a, an) * V);
      }
    }
  }

  lemma Commute(v: int, d: int, p: int)
    ensures (v * d) * p == (d * p) * v
  {
  }

  lemma PrefixBound(s: seq<Limb>, o: nat, i: nat, n: nat)
    requires i <= n && o + n <= |s|
    ensures Num(s, o, i) <= Num(s, o, n)
  {
    NumSplit(s, o, i, n - i);
    NonNeg(Num(s, o + i, n - i), Pw(i));
  }

  lemma SignProduct(su: int, sv: int, a: int, b: int)
    ensures (su * sv) * (a * b) == (su * a) * (sv * b)
  {
  }

  lemma ProductSign(su: int, sv: int, sn: int, a: int, b: int)
    requires (su == 1 || su == -1) && (sv == 1 || sv == -1) && sn == (if su == sv then 1 else -1)
    ensures sn * (a * b) == (su * a) * (sv * b) && sn * (b * a) == sn * (a * b)
  {
    SignProduct(su, sv, a, b);
  }

  /** a * d, one limb longer. */
  method MulByLimb(a: seq<Limb>, d: Limb) returns (r: seq<Limb>)
    ensures |r| == |a| + 1 && Val(r) == Val(a) * d
  {
    hide Val, Num;
    var n := |a|;
    var m := Memory(n, a, []);
    ghost var M := m[..];
    Zero(m, 0, n);
    NumKeep(M, m[..], 0, n, n, n);
    var carry := AddMul1(m, 0, n, n, d);
    r := m[..n] + [carry];
    ValSnoc(m[..n], carry);
    NumWhole(m[..], m[..n], 0);
  }

  /** The schoolbook product of two magnitudes, |a| >= |b| > 0. */
  method MulMag(a: seq<Limb>, b: seq<Limb>) returns (r: seq<Limb>)
    requires |a| >= |b| > 0
    ensures Val(r) == Val(a) * Val(b)
  {
    hide Val, Num;
    if |b| == 1 {
      OneLimb(b);
      r := MulByLimb(a, b[0]);
      return;
    }
    var an, bn := |a|, |b|;
    var m := Memory(an + bn, a, b);
    MulRows(m, 0, an + bn, an, an + bn + an, bn);
    r := m[..an + bn];
    NumWhole(m[..], r, 0);
  }

  /** mpz_mul_basic. */
  method MulBasic(ww: Mpz, u: Mpz, v: Mpz)
    requires u.Ok() && v.Ok()
    modifies ww
    ensures ww.Ok() && ww.Value() == old(u.Value() * v.Value())
  {
    hide Val;
    if u.sn == 0 || v.sn == 0 {
      SetZero(ww);
      return;
    }
    ghost var U, V, su, sv := Val(u.p), Val(v.p), u.sn, v.sn;
    var sn := if u.sn == v.sn then 1 else -1;
    var r;
    if |v.p| > |u.p| {
      r := MulMag(v.p, u.p);
    } else {
      r := MulMag(u.p, v.p);
    }
    Store(ww, r, sn);
    ProductSign(su, sv, sn, U, V);
  }

  // ----- pattern tests -----

  lemma {:induction false} AllOnesVal(s: seq<Limb>)
    requires forall i :: 0 <= i < |s| ==> s[i] == BASE - 1
    ensures Val(s) == Pw(|s|) - 1
  {
    if s != [] {
      AllOnesVal(s[..|s| - 1]);
      Dist(BASE, 1, Pw(|s| - 1));
    }
  }

  /** The magnitude below a top limb that is 2^k - 1 or 2^k. */
  lemma TopPower(s: seq<Limb>, k: nat)
    requires s != []
    ensures Val(s) == Val(s[..|s| - 1]) + s[|s| - 1] * Pw(|s| - 1)
    ensures Two(k) * Pw(|s| - 1) == Two(32 * (|s| - 1) + k)
  {
    TwoPw(|s| - 1);
    TwoAdd(k, 32 * (|s| - 1));
  }

  /** One limb off a number just below, or at, a power of two above the limb. */
  lemma LowLimbOf(d: int, rest: int, t: int, c: int)
    requires d + BASE * rest == BASE * t - c && 0 <= d < BASE && (c == 0 || c == 1)
    ensures if c == 0 then d == 0 && rest == t else d == BASE - 1 && rest == t - 1
  {
  }

  /** A multi-limb 2^e - c has e beyond the limb. */
  lemma BeyondLimb(s: seq<Limb>, e: nat, c: nat)
    requires |s| > 1 && s[|s| - 1] != 0 && Val(s) == Two(e) - c && c <= 1
    ensures e >= 32 && Two(e) == BASE * Two(e - 32)
  {
    hide Val, Two, Pw;
    ValTop(s);
    PwMono(1, |s| - 1);
    PwOne();
    TwoLimb();
    if e < 32 {
      TwoMono(e, 32);
      assert false;
    }
    TwoAdd(32, e - 32);
  }

  /** The limbs of 2^e - 1: all ones below, ones at the bottom of the top limb. */
  lemma {:induction false} OnesShape(s: seq<Limb>, e: nat)
    requires |s| > 0 && s[|s| - 1] != 0 && Val(s) == Two(e) - 1
    ensures forall k :: 0 <= k < |s| - 1 ==> s[k] == BASE - 1
    ensures var top := s[|s| - 1]; And(top, (top + 1) % BASE) == 0
    decreases |s|
  {
    hide Val, Two, And;
    if |s| == 1 {
      OneLimb(s);
      OnesTop(s[0], e);
    } else {
      BeyondLimb(s, e, 1);
      assert s == [s[0]] + s[1..];
      ValAppend([s[0]], s[1..]);
      OneLimb([s[0]]);
      PwOne();
      LowLimbOf(s[0], Val(s[1..]), Two(e - 32), 1);
      OnesShape(s[1..], e - 32);
      assert forall k :: 1 <= k < |s| - 1 ==> s[k] == s[1..][k - 1];
    }
  }

  lemma OnesTop(t: Limb, e: nat)
    requires t == Two(e) - 1
    ensures And(t, (t + 1) % BASE) == 0
  {
    hide Two, And, BitLen;
    OnesPower(e);
    OnesTest(t);
    AndNothing(t);
  }

  lemma AndNothing(t: nat)
    ensures And(t, 0) == 0
  {
  }

  /** The limbs of 2^e: zeros below a power of two. */
  lemma {:induction false} PowerShape(s: seq<Limb>, e: nat)
    requires |s| > 0 && s[|s| - 1] != 0 && Val(s) == Two(e)
    ensures forall k :: 0 <= k < |s| - 1 ==> s[k] == 0
    ensures var top := s[|s| - 1]; And(top, top - 1) == 0
    decreases |s|
  {
    hide Val, Two, And;
    if |s| == 1 {
      OneLimb(s);
      PowerCtz(e);
      PowerTest(s[0]);
    } else {
      BeyondLimb(s, e, 0);
      assert s == [s[0]] + s[1..];
      ValAppend([s[0]], s[1..]);
      OneLimb([s[0]]);
      PwOne();
      LowLimbOf(s[0], Val(s[1..]), Two(e - 32), 0);
      PowerShape(s[1..], e - 32);
      assert forall k :: 1 <= k < |s| - 1 ==> s[k] == s[1..][k - 1];
    }
  }

  lemma {:induction false} PowerCtz(e: nat)
    ensures Ctz(Two(e)) == e
  {
    if e > 0 { PowerCtz(e - 1); }
  }

  /** mpz_all_ones_p: the n with x = 2^n - 1, and 0 for every other integer. */
  method AllOnes(x: Mpz) returns (n: nat)
    requires x.Ok()
    ensures n > 0 ==> x.sn == 1 && x.Mag() == Two(n) - 1 && n <= 32 * |x.p|
    ensures n == 0 ==> forall e: nat :: e > 0 ==> x.Value() != Two(e) - 1
  {
    hide Val, Two, And, BitLen;
    if x.sn <= 0 || |x.p| == 0 { NotPositive(x); return 0; }
    var sz := |x.p|;
    var i := 0;
    while i + 1 < sz
      invariant 0 <= i <= sz - 1
      invariant forall k :: 0 <= k < i ==> x.p[k] == BASE - 1
    {
      if x.p[i] != BASE - 1 { NotOnes(x.p); return 0; }
      i := i + 1;
    }
    var top := x.p[sz - 1];
    if top == 0 { NotPositive(x); return 0; }
    if And(top, (top + 1) % BASE) != 0 { NotOnes(x.p); return 0; }
    OnesLimb(top);
    var bits := BitLen(top);
    n := (sz - 1) * 32 + bits;
    OnesValue(x.p, bits);
  }

  lemma OnesValue(s: seq<Limb>, bits: nat)
    requires s != [] && s[|s| - 1] == Two(bits) - 1 && forall k :: 0 <= k < |s| - 1 ==> s[k] == BASE - 1
    ensures Val(s) == Two(32 * (|s| - 1) + bits) - 1
  {
    hide Val, Two;
    AllOnesVal(s[..|s| - 1]);
    TopPower(s, bits);
    Dist(Two(bits), 1, Pw(|s| - 1));
  }

  lemma NotOnes(s: seq<Limb>)
    requires |s| > 0 && s[|s| - 1] != 0
    requires (exists k :: 0 <= k < |s| - 1 && s[k] != BASE - 1) || And(s[|s| - 1], (s[|s| - 1] + 1) % BASE) != 0
    ensures forall e: nat :: Val(s) != Two(e) - 1
  {
    hide Val, Two, And;
    forall e: nat ensures Val(s) != Two(e) - 1 {
      if Val(s) == Two(e) - 1 { OnesShape(s, e); assert false; }
    }
  }

  lemma NotPower(s: seq<Limb>)
    requires |s| > 0 && s[|s| - 1] != 0
    requires (exists k :: 0 <= k < |s| - 1 && s[k] != 0) || And(s[|s| - 1], s[|s| - 1] - 1) != 0
    ensures forall e: nat :: Val(s) != Two(e)
  {
    hide Val, Two, And;
    forall e: nat ensures Val(s) != Two(e) {
      if Val(s) == Two(e) { PowerShape(s, e); assert false; }
    }
  }

  /** A number that is not positive is neither 2^e nor 2^e - 1 for e > 0. */
  lemma NotPositive(x: Mpz)
    requires x.Ok() && (x.sn <= 0 || |x.p| == 0 || x.p[|x.p| - 1] == 0)
    ensures forall e: nat :: e > 0 ==> x.Value() != Two(e) - 1 && x.Value() != Two(e)
  {
    hide Val, Two;
    ValEmpty(x.p);
    if |x.p| == 1 { OneLimb(x.p); }
    forall e: nat | e > 0 ensures x.Value() < Two(e) - 1 {
      TwoMono(1, e);
      TwoOne();
    }
  }

  lemma OnesLimb(t: Limb)
    requires t > 0 && And(t, (t + 1) % BASE) == 0
    ensures t + 1 == Two(BitLen(t)) && 0 < BitLen(t) <= 32
  {
    hide And, Two, BitLen;
    TwoLimb();
    BitLenBound(t, 32);
    BitLenPos(t);
    if t == BASE - 1 {
      OnesPower(32);
    } else {
      OnesTest(t);
    }
  }

  lemma BitLenPos(t: nat)
    requires t > 0
    ensures BitLen(t) > 0
  {
  }

  lemma {:induction false} OnesPower(e: nat)
    ensures BitLen(Two(e) - 1) == e
  {
    if e > 0 {
      OnesPower(e - 1);
      assert (Two(e) - 1) / 2 == Two(e - 1) - 1;
    }
  }

  /** mpz_power_of_2_exp: the n with x = 2^n, and 0 for 1 and everything that is no power of two. */
  method PowerOfTwo(x: Mpz) returns (n: nat)
    requires x.Ok()
    ensures n > 0 ==> x.sn == 1 && x.Mag() == Two(n) && n < 32 * |x.p|
    ensures n == 0 ==> forall e: nat :: e > 0 ==> x.Value() != Two(e)
  {
    hide Val, Two, And, Ctz;
    if x.sn <= 0 || |x.p| == 0 { NotPositive(x); return 0; }
    var sz := |x.p|;
    var i := 0;
    while i + 1 < sz
      invariant 0 <= i <= sz - 1
      invariant forall k :: 0 <= k < i ==> x.p[k] == 0
    {
      if x.p[i] != 0 { NotPower(x.p); return 0; }
      i := i + 1;
    }
    var top := x.p[sz - 1];
    if top == 0 { NotPositive(x); return 0; }
    if And(top, top - 1) != 0 { NotPower(x.p); return 0; }
    PowerTest(top);
    TwoLimb();
    CtzBound(top, 32);
    n := (sz - 1) * 32 + Ctz(top);
    ValZeros(x.p[..sz - 1]);
    TopPower(x.p, Ctz(top));
    if n == 0 {
      TwoZero();
      BiggerPowers();
    }
  }

  lemma BiggerPowers()
    ensures forall e: nat :: e > 0 ==> Two(e) > 1
  {
    hide Two;
    forall e: nat | e > 0 ensures Two(e) > 1 {
      TwoMono(1, e);
      TwoOne();
    }
  }

  const SPARSE_MAX_BITS: nat := 8

  /** mpz_sparse_p: only large positive operands with few set bits. */
  method Sparse(x: Mpz) returns (count: nat)
    ensures count > 0 ==> x.sn > 0 && |x.p| >= Toom3.TOOM3_THRESHOLD
  {
    if x.sn <= 0 || |x.p| < Toom3.TOOM3_THRESHOLD { return 0; }
    count := 0;
    var i := 0;
    while i < |x.p| && count <= SPARSE_MAX_BITS
      invariant 0 <= i <= |x.p|
    {
      count := count + Popcount(x.p[i]);
      i := i + 1;
    }
    if count > SPARSE_MAX_BITS { return 0; }
  }

  // ----- algebraic routes -----

  /** w = 2^e, through mpz_mul_2exp of 1. */
  method SetPower(w: Mpz, e: nat) returns (ok: bool)
    modifies w
    ensures 32 + e <= BIT_LIMIT ==> ok
    ensures ok ==> w.Ok() && w.Value() == Two(e) && w.Mag() == Two(e) && w.sn == 1
  {
    hide Val, Two;
    var one := new Mpz();
    SetInt(one, 1);
    UnitMag(one.sn, Val(one.p));
    ok := Mul2exp(w, one, e);
  }

  lemma OnesProduct(a: int, b: int)
    ensures (a - 1) * (b - 1) == a * b - a - b + 1
  {
    Dist(a, 1, b - 1);
    DistL(a, b, 1);
  }

  /** w -= 2^e, in place, then still positive or zero. */
  method SubPower(w: Mpz, e: nat) returns (ok: bool)
    requires w.Ok() && w.sn == 1 && w.Mag() >= Two(e)
    modifies w
    ensures 32 + e <= BIT_LIMIT ==> ok
    ensures ok ==> w.Ok() && w.sn == 1 && w.Mag() == old(w.Mag()) - Two(e)
  {
    hide Val, Two;
    var a := new Mpz();
    ok := SetPower(a, e);
    if ok {
      SubMpz(w, w, a);
    }
  }

  /** mpz_mul_all_ones: (2^n - 1)(2^m - 1) = 2^(n+m) - 2^n - 2^m + 1. */
  method MulAllOnes(w: Mpz, n: nat, m: nat) returns (ok: bool)
    requires n > 0 && m > 0
    modifies w
    ensures 32 + n + m <= BIT_LIMIT ==> ok
    ensures ok ==> w.Ok() && w.Value() == (Two(n) - 1) * (Two(m) - 1)
  {
    hide Val, Two;
    TwoAdd(n, m);
    OnesProduct(Two(n), Two(m));
    AtLeastTwo(n);
    AtLeastTwo(m);
    ProductRoom(Two(n), Two(m));
    if n == m {
      ok := SetPower(w, 2 * n);
      if !ok { return; }
      TwoAdd(1, n);
      TwoOne();
      ok := SubPower(w, n + 1);
      if !ok { return; }
    } else {
      ok := SetPower(w, n + m);
      if !ok { return; }
      ok := SubPower(w, n);
      if !ok { return; }
      ok := SubPower(w, m);
      if !ok { return; }
    }
    AddInt(w, 1);
  }

  lemma TwoOne()
    ensures Two(1) == 2
  {
  }

  lemma AtLeastTwo(n: nat)
    requires n > 0
    ensures Two(n) >= 2
  {
  }

  lemma ProductRoom(a: nat, b: nat)
    requires a >= 2 && b >= 2
    ensures a * b >= a + b
  {
    MulLe(2, a, b);
    MulLe(2, b, a);
  }

  /** (2^n - 1) * y = (y << n) - y. */
  method MulByOnes(ww: Mpz, y: Mpz, n: nat) returns (ok: bool)
    requires y.Ok() && ww != y
    modifies ww
    ensures 32 * |old(y.p)| + n <= BIT_LIMIT ==> ok
    ensures ok ==> ww.Ok() && ww.Value() == (Two(n) - 1) * old(y.Value())
  {
    hide Val, Two, Mpz.Value, Mpz.Mag, Mpz.Ok;
    var shifted := new Mpz();
    ok := Mul2exp(shifted, y, n);
    if ok {
      Dist(Two(n), 1, y.Value());
      SubMpz(ww, shifted, y);
    }
  }

  /** mpz_mul_sparse: one shifted copy of dense for every set bit. */
  method MulSparse(w: Mpz, sparse: Mpz, dense: Mpz) returns (ok: bool)
    requires sparse.Ok() && dense.Ok() && w != sparse && w != dense && sparse.sn > 0
    modifies w
    ensures 32 * (|old(sparse.p)| + |old(dense.p)|) <= BIT_LIMIT ==> ok
    ensures ok ==> w.Ok() && w.Value() == old(sparse.Value() * dense.Value())
  {
    hide Val, Two, Pw;
    SetZero(w);
    ghost var D := dense.Value();
    ghost var P := sparse.p;
    ValEmpty(P[..0]);
    for i := 0 to |sparse.p|
      invariant w.Ok() && w.Value() == Val(P[..i]) * D
    {
      ValTake(P, i);
      Dist(Val(P[..i]), P[i] * Pw(i), D);
      var good := AddLimbBits(w, dense, sparse.p[i], i);
      if !good { return false; }
    }
    assert P[..|P|] == P;
    return true;
  }

  /** The set bits of limb i: w += dense << (32 i + bit) for each. */
  method AddLimbBits(w: Mpz, dense: Mpz, limb0: Limb, i: nat) returns (ok: bool)
    requires w.Ok() && dense.Ok() && w != dense
    modifies w
    ensures 32 * (|old(dense.p)| + i + 1) <= BIT_LIMIT ==> ok
    ensures ok ==> w.Ok() && w.Value() == old(w.Value()) + (limb0 * Pw(i)) * old(dense.Value())
  {
    hide Val, Two, Pw, And, Ctz;
    ghost var D, W := dense.Value(), w.Value();
    var limb: nat := limb0;
    ghost var done: nat := 0;
    while limb != 0
      invariant 0 <= limb < BASE && done + limb == limb0
      invariant w.Ok() && w.Value() == W + (done * Pw(i)) * D
      decreases limb
    {
      TwoLimb();
      CtzBound(limb, 32);
      ClearLowest(limb);
      var bit := Ctz(limb);
      var good := AddShifted(w, dense, i * 32 + bit);
      if !good { return false; }
      BitPosition(i, bit);
      AddTerm(done, Two(bit), Pw(i), D);
      done := done + Two(bit);
      limb := And(limb, limb - 1);
    }
    return true;
  }

  lemma BitPosition(i: nat, bit: nat)
    ensures Two(i * 32 + bit) == Two(bit) * Pw(i)
  {
    TwoPw(i);
    TwoAdd(bit, 32 * i);
  }

  lemma AddTerm(done: int, t: int, p: int, d: int)
    ensures (done * p) * d + d * (t * p) == ((done + t) * p) * d
  {
    Dist(done, t, p);
    Dist(done * p, t * p, d);
  }

  /** w += dense << e. */
  method AddShifted(w: Mpz, dense: Mpz, e: nat) returns (ok: bool)
    requires w.Ok() && dense.Ok() && w != dense
    modifies w
    ensures 32 * |old(dense.p)| + e <= BIT_LIMIT ==> ok
    ensures ok ==> w.Ok() && w.Value() == old(w.Value()) + old(dense.Value()) * Two(e)
  {
    hide Val, Two;
    var shifted := new Mpz();
    var temp := new Mpz();
    ok := Mul2exp(shifted, dense, e);
    if ok {
      AddMpz(temp, w, shifted);
      Set(w, temp);
    }
  }

  // ----- limb-array routes -----

  /** Karatsuba with the scratch buffer the source allocates. */
  method KaratsubaMag(a: seq<Limb>, b: seq<Limb>) returns (r: seq<Limb>)
    ensures |r| == |a| + |b| && Val(r) == Val(a) * Val(b)
  {
    hide Val, Num, K.ScratchSize;
    var rl := |a| + |b|;
    var size := K.ScratchSize(K.Max(|a|, |b|));
    size := size + size / 8 + 16;
    var m := Memory(rl + size, a, b);
    K.MulLimbs(m, 0, rl + size, |a|, rl + size + |a|, |b|, rl);
    r := m[..rl];
    NumWhole(m[..], r, 0);
  }

  /** Toom-3 with the result and scratch buffers the source allocates. */
  method ToomMag(a: seq<Limb>, b: seq<Limb>) returns (r: seq<Limb>)
    requires K.Min(|a|, |b|) >= Toom3.TOOM3_THRESHOLD
    ensures Val(r) == Val(a) * Val(b)
  {
    hide Val, Num, Toom3.ScratchSize;
    var rl := 2 * K.Max(|a|, |b|) + 24;
    var size := Toom3.ScratchSize(K.Max(|a|, |b|));
    size := size + size / 8 + 16;
    var m := Memory(size + rl, a, b);
    Toom3.MulLimbs(m, size, size + rl, |a|, size + rl + |a|, |b|, 0, size);
    r := m[size..size + rl];
    NumWhole(m[..], r, size);
  }

  /** The square of a magnitude: schoolbook below the Toom-3 threshold. */
  method SqrMag(a: seq<Limb>) returns (r: seq<Limb>)
    ensures Val(r) == Val(a) * Val(a)
  {
    hide Val, Num, ToomSqr.SqrScratch;
    var n := |a|;
    if n < Toom3.TOOM3_THRESHOLD {
      var m := Memory(2 * n, a, []);
      SqrBasicLimbs(m, 0, 2 * n, n);
      r := m[..2 * n];
      NumWhole(m[..], r, 0);
      return;
    }
    var rl := 2 * n + 24;
    var size := ToomSqr.SqrScratch(n);
    size := size + size / 8 + 16;
    var m := Memory(size + rl, a, []);
    ToomSqr.SqrLimbs(m, size, size + rl, n, 0, size);
    r := m[size..size + rl];
    NumWhole(m[..], r, size);
  }

  lemma UnitSquare(sn: int, v: int)
    requires sn == 1 || sn == -1
    ensures (sn * v) * (sn * v) == v * v
  {
  }

  /** mpz_sqr. */
  method Sqr(ww: Mpz, u: Mpz) returns (ok: bool)
    requires u.Ok() && ww != u
    modifies ww
    ensures 32 * (2 * |old(u.p)| + 1) <= BIT_LIMIT ==> ok
    ensures ok ==> ww.Ok() && ww.Value() == old(u.Value() * u.Value())
  {
    hide Val, Two;
    if u.sn == 0 {
      SetZero(ww);
      return true;
    }
    UnitSquare(u.sn, Val(u.p));
    var n := PowerOfTwo(u);
    if n > 0 {
      TwoAdd(n, n);
      ok := SetPower(ww, 2 * n);
      return;
    }
    n := AllOnes(u);
    if n > 0 {
      ok := MulAllOnes(ww, n, n);
      return;
    }
    var r := SqrMag(u.p);
    Store(ww, r, 1);
    return true;
  }

  // ----- the dispatcher -----

  /** mpz_mul. The destination may not be an operand. */
  method MulTo(ww: Mpz, u: Mpz, v: Mpz) returns (ok: bool)
    requires u.Ok() && v.Ok() && ww != u && ww != v
    modifies ww
    ensures 32 * (|old(u.p)| + |old(v.p)| + 1) <= BIT_LIMIT ==> ok
    ensures ok ==> ww.Ok() && ww.Value() == old(u.Value() * v.Value())
    decreases |u.p| + |v.p|, 1
  {
    hide Val, Two;
    if u.sn == 0 || v.sn == 0 {
      SetZero(ww);
      return true;
    }
    if u == v {
      ok := Sqr(ww, u);
      return;
    }
    var done;
    done, ok := MulPatterns(ww, u, v);
    if done { return; }
    var lo, hi := K.Min(|u.p|, |v.p|), K.Max(|u.p|, |v.p|);
    if hi >= 2 * lo && lo >= Toom3.TOOM3_THRESHOLD {
      ok := MulBalance(ww, u, v);
      return;
    }
    if lo < K.KARATSUBA_THRESHOLD {
      MulBasic(ww, u, v);
      return true;
    }
    SignProduct(u.sn, v.sn, Val(u.p), Val(v.p));
    var sn := if u.sn == v.sn then 1 else -1;
    assert sn == u.sn * v.sn;
    var r;
    if lo < Toom3.TOOM3_THRESHOLD {
      r := KaratsubaMag(u.p, v.p);
    } else {
      r := ToomMag(u.p, v.p);
    }
    Store(ww, r, sn);
    return true;
  }

  /** The routes taken for operands of a special shape. */
  method MulPatterns(ww: Mpz, u: Mpz, v: Mpz) returns (done: bool, ok: bool)
    requires u.Ok() && v.Ok() && ww != u && ww != v
    modifies ww
    ensures done && 32 * (|old(u.p)| + |old(v.p)| + 1) <= BIT_LIMIT ==> ok
    ensures done && ok ==> ww.Ok() && ww.Value() == old(u.Value() * v.Value())
  {
    hide Val, Two;
    done, ok := OnesPatterns(ww, u, v);
    if done { return; }
    ghost var U, V := u.Value(), v.Value();
    assert U * V == V * U;
    done := true;
    var e := PowerOfTwo(u);
    if e > 0 {
      ok := Mul2exp(ww, v, e);
      return;
    }
    e := PowerOfTwo(v);
    if e > 0 {
      ok := Mul2exp(ww, u, e);
      return;
    }
    var count := Sparse(u);
    if count > 0 {
      ok := MulSparse(ww, u, v);
      return;
    }
    count := Sparse(v);
    if count > 0 {
      ok := MulSparse(ww, v, u);
      return;
    }
    return false, true;
  }

  /** One or both operands are 2^n - 1. */
  method OnesPatterns(ww: Mpz, u: Mpz, v: Mpz) returns (done: bool, ok: bool)
    requires u.Ok() && v.Ok() && ww != u && ww != v
    modifies ww
    ensures done && 32 * (|old(u.p)| + |old(v.p)| + 1) <= BIT_LIMIT ==> ok
    ensures done && ok ==> ww.Ok() && ww.Value() == old(u.Value() * v.Value())
    ensures !done ==> ww.p == old(ww.p) && ww.sn == old(ww.sn) && ww.alloc == old(ww.alloc)
  {
    hide Val, Two;
    done := true;
    ghost var U, V := u.Value(), v.Value();
    var uOnes := AllOnes(u);
    var vOnes := AllOnes(v);
    if uOnes > 0 && vOnes > 0 {
      ok := MulAllOnes(ww, uOnes, vOnes);
      return;
    }
    if uOnes > 0 && uOnes >= Toom3.TOOM3_THRESHOLD * 32 {
      ok := MulByOnes(ww, v, uOnes);
      return;
    }
    if vOnes > 0 && vOnes >= Toom3.TOOM3_THRESHOLD * 32 {
      ok := MulByOnes(ww, u, vOnes);
      return;
    }
    return false, true;
  }

  lemma TopNonzero(p: seq<Limb>)
    requires Norm(p) && Val(p) > 0
    ensures |p| > 0 && p[|p| - 1] != 0
  {
    if |p| == 1 {
      OneLimb(p);
    }
  }

  /** One chunk of the longer operand times b, added to the result at limb j. */
  method AddChunk(result: Mpz, limbs: seq<Limb>, b: Mpz, j: nat) returns (ok: bool)
    requires result.Ok() && b.Ok() && result != b && b.Value() != 0
    modifies result
    ensures 32 * (|limbs| + |old(b.p)| + 1) <= BIT_LIMIT ==> ok
    ensures ok ==> result.Ok() && result.Value() == old(result.Value()) + (Val(limbs) * Pw(j)) * old(b.Value())
    decreases |limbs| + |b.p|, 2
  {
    hide Val, Pw;
    var chunk := new Mpz();
    Store(chunk, limbs, 1);
    if chunk.sn == 0 {
      return true;
    }
    var tmp := new Mpz();
    ok := MulTo(tmp, chunk, b);
    if !ok { return; }
    StrippedZero(limbs);
    NonzeroProduct(Val(limbs), b.Value());
    TopNonzero(tmp.p);
    ValAppend(Zeros(j), tmp.p);
    NonNeg(Val(tmp.p), Pw(j));
    Assoc(tmp.sn, Val(tmp.p), Pw(j));
    ChunkTerm(Val(limbs), b.Value(), Pw(j));
    tmp.p := Zeros(j) + tmp.p;
    AddMpz(result, result, tmp);
  }

  lemma NonzeroProduct(a: int, b: int)
    requires a != 0 && b != 0
    ensures a * b != 0
  {
  }

  lemma ChunkTerm(a: int, b: int, p: int)
    ensures (a * b) * p == (a * p) * b
  {
  }

  lemma ChunkStep(s: seq<Limb>, j: nat, n: nat)
    requires j + n <= |s|
    ensures Val(s[..j + n]) == Val(s[..j]) + Val(s[j..j + n]) * Pw(j)
  {
    assert s[..j + n] == s[..j] + s[j..j + n];
    ValAppend(s[..j], s[j..j + n]);
  }

  lemma BlockFits(i: nat, blocks: nat, n: nat, size: nat)
    requires size > 0 && blocks == n / size && i < blocks
    ensures i * size + size <= n && (i + 1) * size == i * size + size
  {
    Dist(i, 1, size);
    MulLe(i + 1, blocks, size);
    assert n == size * (n / size) + n % size;
  }

  lemma RestIsShort(blocks: nat, n: nat, size: nat)
    requires size > 0 && blocks == n / size
    ensures n - blocks * size < size
  {
    assert n == size * (n / size) + n % size;
  }

  /** The sum of the chunk products: the longer magnitude times b. */
  method SumChunks(limbs: seq<Limb>, b: Mpz) returns (result: Mpz, ok: bool)
    requires b.Ok() && b.Value() != 0 && |limbs| >= 2 * |b.p| && |b.p| > 0
    ensures 32 * (|limbs| + |b.p| + 1) <= BIT_LIMIT ==> ok
    ensures fresh(result) && (ok ==> result.Ok() && result.Value() == Val(limbs) * b.Value())
    decreases |limbs| + |b.p|, 0, 0
  {
    hide Val, Pw;
    var size := |b.p|;
    var blocks := |limbs| / size;
    result := new Mpz();
    ghost var Bv := b.Value();
    var j := 0;
    ValEmpty(limbs[..0]);
    for i := 0 to blocks
      invariant j == i * size <= |limbs|
      invariant result.Ok() && result.Value() == Val(limbs[..j]) * Bv
    {
      BlockFits(i, blocks, |limbs|, size);
      ChunkStep(limbs, j, size);
      Dist(Val(limbs[..j]), Val(limbs[j..j + size]) * Pw(j), Bv);
      var good := AddChunk(result, limbs[j..j + size], b, j);
      if !good { return result, false; }
      j := j + size;
    }
    RestIsShort(blocks, |limbs|, size);
    if j < |limbs| {
      var rest := |limbs| - j;
      ChunkStep(limbs, j, rest);
      Dist(Val(limbs[..j]), Val(limbs[j..j + rest]) * Pw(j), Bv);
      var good := AddChunk(result, limbs[j..j + rest], b, j);
      if !good { return result, false; }
    }
    assert limbs[..|limbs|] == limbs;
    return result, true;
  }

  lemma AbsProduct(sn: int, m: nat, a: nat, sb: int, b: nat)
    requires sn * m == a * (sb * b) && a > 0 && b > 0 && (sb == 1 || sb == -1) && -1 <= sn <= 1
    ensures m == a * b
  {
    assert a * (sb * b) == sb * (a * b);
    MulLt(0, a, b);
  }

  /** mpz_mul_balance: the longer operand in chunks of the shorter one's length. */
  method MulBalance(ww: Mpz, u: Mpz, v: Mpz) returns (ok: bool)
    requires u.Ok() && v.Ok() && ww != u && ww != v && u.sn != 0 && v.sn != 0
    requires K.Max(|u.p|, |v.p|) >= 2 * K.Min(|u.p|, |v.p|) && K.Min(|u.p|, |v.p|) >= Toom3.TOOM3_THRESHOLD
    modifies ww
    ensures 32 * (|old(u.p)| + |old(v.p)| + 1) <= BIT_LIMIT ==> ok
    ensures ok ==> ww.Ok() && ww.Value() == old(u.Value() * v.Value())
    decreases |u.p| + |v.p|, 0
  {
    hide Val, Two;
    var a, b := u, v;
    if |a.p| < |b.p| {
      a, b := v, u;
    }
    ValTop(a.p);
    ValTop(b.p);
    NonzeroProduct(b.sn, Val(b.p));
    var result;
    result, ok := SumChunks(a.p, b);
    if !ok { return; }
    BalanceValue(result.sn, Val(result.p), a.sn, Val(a.p), b.sn, Val(b.p));
    TopNonzero(result.p);
    ww.p, ww.sn, ww.alloc := result.p, (if a.sn == b.sn then 1 else -1), true;
  }

  lemma BalanceValue(sn: int, m: nat, sa: int, a: nat, sb: int, b: nat)
    requires sn * m == a * (sb * b) && a > 0 && b > 0 && -1 <= sn <= 1
    requires (sa == 1 || sa == -1) && (sb == 1 || sb == -1)
    ensures m > 0 && (if sa == sb then 1 else -1) * m == (sa * a) * (sb * b) == (sb * b) * (sa * a)
  {
    AbsProduct(sn, m, a, sb, b);
    NonzeroProduct(a, b);
    SignProduct(sa, sb, a, b);
    Swap(sa * a, sb * b);
  }

  lemma Swap(a: int, b: int)
    ensures a * b == b * a
  {
  }
}
