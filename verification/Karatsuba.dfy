/**
  Karatsuba multiplication on raw limbs (lib/sp_bigint.c:896-1112). All
  temporaries live in the caller's scratch region, laid out as the source lays
  them out; the frame conditions say that neither the result nor the scratch
  region is ever overrun, at any recursion depth.
 */
module Karatsuba {
  import opened Limbs
  import opened Mpn
  import opened Mul

  const KARATSUBA_THRESHOLD: nat := 32

  function Max(a: nat, b: nat): nat {
    if a > b then a else b
  }

  function Min(a: nat, b: nat): nat {
    if a < b then a else b
  }

  /** karatsuba_scratch_size. */
  function ScratchSize(n: nat): nat {
    if n < KARATSUBA_THRESHOLD then 0
    else
      var e := (n + 1) / 2 + 1;
      (2 * e + 3 * (2 * e)) + ScratchSize(e) + 8
  }

  lemma ScratchStep(n: nat)
    requires n >= KARATSUBA_THRESHOLD
    ensures ScratchSize(n) == 8 * ((n + 1) / 2 + 1) + ScratchSize((n + 1) / 2 + 1) + 8
  {
  }

  lemma {:induction false} ScratchMono(a: nat, b: nat)
    requires a <= b
    ensures ScratchSize(a) <= ScratchSize(b)
  {
    if a >= KARATSUBA_THRESHOLD {
      ScratchMono((a + 1) / 2 + 1, (b + 1) / 2 + 1);
    }
  }

  /** s and t agree outside two regions. */
  ghost predicate Same2(s: seq<Limb>, t: seq<Limb>, a: nat, an: nat, b: nat, bn: nat) {
    |s| == |t| && forall k :: 0 <= k < |s| && (k < a || k >= a + an) && (k < b || k >= b + bn) ==> s[k] == t[k]
  }

  lemma SumBelow(M: seq<Limb>, lo: nat, ln: nat, hi: nat, hn: nat, e: nat)
    requires lo + ln <= |M| && hi + hn <= |M| && ln < e && hn < e
    ensures Num(M, lo, ln) + Num(M, hi, hn) < Pw(e)
  {
    hide Num, Val;
    NumBound(M, lo, ln);
    NumBound(M, hi, hn);
    PwMono(ln, e - 1);
    PwMono(hn, e - 1);
  }

  /** dst = low + high in e limbs; the trimmed length is returned. */
  method EvalSum(m: array<Limb>, dst: nat, e: nat, lo: nat, ln: nat, hi: nat, hn: nat) returns (len: nat)
    requires dst + e <= m.Length && lo + ln <= m.Length && hi + hn <= m.Length
    requires ln < e && hn < e
    requires Apart(dst, e, lo, ln) && Apart(dst, e, hi, hn)
    modifies m
    ensures 1 <= len <= e
    ensures Num(m[..], dst, len) == old(Num(m[..], lo, ln) + Num(m[..], hi, hn))
    ensures Same(old(m[..]), m[..], dst, e)
  {
    hide Num, Val, Pw;
    ghost var M := m[..];
    Zero(m, dst, e);
    NumKeep(M, m[..], dst, e, lo, ln);
    NumKeep(M, m[..], dst, e, hi, hn);
    ghost var S := m[..];
    CopyI(m, dst, lo, ln);
    NumKeep(S, m[..], dst, ln, hi, hn);
    NumTrim(m[..], dst, ln, e);
    if hn > 0 {
      var carry := Add(m, dst, dst, e, hi, hn);
      SumBelow(M, lo, ln, hi, hn, e);
      LostZero(carry, Pw(e), Num(m[..], dst, e), Num(M, lo, ln) + Num(M, hi, hn));
    } else {
      NumZero(M, hi);
    }
    len := TrimLen(m, dst, e, 1);
  }

  /** z = a * b in p limbs (high limbs zero), through a recursive call. */
  method MulInto(m: array<Limb>, z: nat, p: nat, a: nat, an: nat, b: nat, bn: nat, s: nat, end: nat)
    requires a + an <= m.Length && b + bn <= m.Length && an + bn <= p
    requires z + p <= s && s + ScratchSize(Max(an, bn)) <= end <= m.Length
    requires Apart(z, end - z, a, an) && Apart(z, end - z, b, bn)
    modifies m
    ensures Num(m[..], z, p) == old(Times(Num(m[..], a, an), Num(m[..], b, bn)))
    ensures Same(old(m[..]), m[..], z, end - z)
    decreases Max(an, bn), 1
  {
    hide Num, Val, Pw, ScratchSize;
    ghost var M := m[..];
    Zero(m, z, p);
    NumKeep(M, m[..], z, p, a, an);
    NumKeep(M, m[..], z, p, b, bn);
    if an > 0 && bn > 0 {
      MulLimbs(m, z, a, an, b, bn, s);
      NumTrim(m[..], z, an + bn, p);
    } else {
      NumZero(M, a);
      NumZero(M, b);
    }
  }

  /** mpz_mul_karatsuba_limbs. */
  method MulLimbs(m: array<Limb>, r: nat, x: nat, xn: nat, y: nat, yn: nat, s: nat)
    requires r + xn + yn <= m.Length && x + xn <= m.Length && y + yn <= m.Length
    requires s + ScratchSize(Max(xn, yn)) <= m.Length
    requires Apart(r, xn + yn, x, xn) && Apart(r, xn + yn, y, yn)
    requires Apart(s, ScratchSize(Max(xn, yn)), r, xn + yn)
    requires Apart(s, ScratchSize(Max(xn, yn)), x, xn) && Apart(s, ScratchSize(Max(xn, yn)), y, yn)
    modifies m
    ensures Num(m[..], r, xn + yn) == old(Num(m[..], x, xn) * Num(m[..], y, yn))
    ensures Same2(old(m[..]), m[..], r, xn + yn, s, ScratchSize(Max(xn, yn)))
    decreases Max(xn, yn), 0
  {
    hide Num, Val, Pw, ScratchSize, Low, High, Times, Same, Same2;
    ghost var M := m[..];
    if Min(xn, yn) < KARATSUBA_THRESHOLD {
      MulBasicLimbs(m, r, x, xn, y, yn);
      Same2Of(M, m[..], r, xn + yn, s, ScratchSize(Max(xn, yn)));
      return;
    }
    var half := (Max(xn, yn) + 1) / 2;
    var e := half + 1;
    ScratchStep(Max(xn, yn));
    var p := 2 * e;
    var z0, z2, z1 := s + 2 * e, s + 2 * e + p, s + 2 * e + 2 * p;
    var sn := ScratchSize(Max(xn, yn));
    Products(m, x, xn, y, yn, s, s + sn, half);
    ghost var S := m[..];
    ghost var X0, X1 := Low(M, x, xn, half), High(M, x, xn, half);
    ghost var Y0, Y1 := Low(M, y, yn, half), High(M, y, yn, half);
    CrossTerm(X0, X1, Y0, Y1);
    WholeProduct(M, x, xn, y, yn, half);
    Recombine(m, r, xn + yn, z0, z1, z2, p, half, Times(X0, Y1) + Times(X1, Y0));
    Same2Join(M, S, m[..], s, sn, z1, p, r, xn + yn);
  }

  lemma Same2Of(a: seq<Limb>, b: seq<Limb>, r: nat, rn: nat, s: nat, sn: nat)
    requires Same(a, b, r, rn)
    ensures Same2(a, b, r, rn, s, sn)
  {
  }

  lemma Same2Join(a: seq<Limb>, b: seq<Limb>, d: seq<Limb>, s: nat, sn: nat, z: nat, p: nat, r: nat, rn: nat)
    requires Same(a, b, s, sn) && Same2(b, d, r, rn, z, p) && s <= z && z + p <= s + sn
    ensures Same2(a, d, r, rn, s, sn)
  {
  }

  lemma TwoSteps(b: seq<Limb>, c: seq<Limb>, d: seq<Limb>, z: nat, p: nat, r: nat, rn: nat)
    requires Same(b, c, z, p) && Same(c, d, r, rn)
    ensures Same2(b, d, r, rn, z, p)
  {
  }

  /** From the three products to the result: the middle term, then the sum. */
  method Recombine(m: array<Limb>, r: nat, len: nat, z0: nat, z1: nat, z2: nat, p: nat, half: nat, ghost mid: nat)
    requires r + len <= m.Length && z0 + p <= m.Length && z1 + p <= m.Length && z2 + p <= m.Length
    requires Apart(z1, p, z0, p) && Apart(z1, p, z2, p)
    requires Apart(r, len, z0, p) && Apart(r, len, z1, p) && Apart(r, len, z2, p)
    requires Num(m[..], z1, p) == Num(m[..], z0, p) + Num(m[..], z2, p) + mid
    requires Num(m[..], z0, p) + mid * Pw(half) + Num(m[..], z2, p) * Pw(2 * half) < Pw(len)
    modifies m
    ensures Num(m[..], r, len) == old(Num(m[..], z0, p) + mid * Pw(half) + Num(m[..], z2, p) * Pw(2 * half))
    ensures Same2(old(m[..]), m[..], r, len, z1, p)
  {
    hide Num, Val, Pw, Same, Same2;
    ghost var S := m[..];
    MiddleTerm(m, z0, z1, z2, p);
    ghost var T := m[..];
    Combine(m, r, len, z0, z1, z2, p, half);
    TwoSteps(S, T, m[..], z1, p, r, len);
  }

  /** z1 becomes z1 - z0 - z2, which never underflows. */
  method MiddleTerm(m: array<Limb>, z0: nat, z1: nat, z2: nat, p: nat)
    requires z0 + p <= m.Length && z1 + p <= m.Length && z2 + p <= m.Length
    requires Apart(z1, p, z0, p) && Apart(z1, p, z2, p)
    requires Num(m[..], z1, p) >= Num(m[..], z0, p) + Num(m[..], z2, p)
    modifies m
    ensures Num(m[..], z1, p) == old(Num(m[..], z1, p) - Num(m[..], z0, p) - Num(m[..], z2, p))
    ensures Num(m[..], z0, p) == old(Num(m[..], z0, p)) && Num(m[..], z2, p) == old(Num(m[..], z2, p))
    ensures Same(old(m[..]), m[..], z1, p)
  {
    hide Num, Val, Pw;
    ghost var S := m[..];
    var borrow := Sub(m, z1, z1, p, z0, p);
    NumKeep(S, m[..], z1, p, z2, p);
    NumKeep(S, m[..], z1, p, z0, p);
    var borrow' := Sub(m, z1, z1, p, z2, p);
    NumKeep(S, m[..], z1, p, z2, p);
    NumKeep(S, m[..], z1, p, z0, p);
    NumBound(m[..], z1, p);
    NoBorrow(borrow, borrow', Pw(p), Num(m[..], z1, p), Num(S, z1, p), Num(S, z0, p), Num(S, z2, p));
  }

  ghost function Low(s: seq<Limb>, x: nat, xn: nat, h: nat): nat
    requires x + xn <= |s|
  {
    Num(s, x, Min(xn, h))
  }

  ghost function High(s: seq<Limb>, x: nat, xn: nat, h: nat): nat
    requires x + xn <= |s|
  {
    if xn > h then Num(s, x + h, xn - h) else 0
  }

  lemma LowHigh(s: seq<Limb>, x: nat, xn: nat, h: nat)
    requires x + xn <= |s|
    ensures Num(s, x, xn) == Low(s, x, xn, h) + High(s, x, xn, h) * Pw(h)
  {
    hide Num, Val;
    if xn > h {
      NumSplit(s, x, h, xn - h);
    } else {
      assert Low(s, x, xn, h) == Num(s, x, xn);
    }
  }

  /** The evaluations x0 + x1 and y0 + y1, with their trimmed lengths. */
  method EvalBoth(m: array<Limb>, x: nat, xn: nat, y: nat, yn: nat, s: nat, half: nat) returns (sxn: nat, syn: nat)
    requires xn <= 2 * half && yn <= 2 * half
    requires x + xn <= m.Length && y + yn <= m.Length && s + 2 * (half + 1) <= m.Length
    requires Apart(s, 2 * (half + 1), x, xn) && Apart(s, 2 * (half + 1), y, yn)
    modifies m
    ensures Same(old(m[..]), m[..], s, 2 * (half + 1))
    ensures 1 <= sxn <= half + 1 && 1 <= syn <= half + 1
    ensures Num(m[..], s, sxn) == old(Low(m[..], x, xn, half) + High(m[..], x, xn, half))
    ensures Num(m[..], s + half + 1, syn) == old(Low(m[..], y, yn, half) + High(m[..], y, yn, half))
  {
    hide Num, Val;
    ghost var M := m[..];
    var e := half + 1;
    var x0n, y0n := Min(xn, half), Min(yn, half);
    var x1, y1 := if xn > half then x + half else x, if yn > half then y + half else y;
    NumZero(M, x);
    NumZero(M, y);
    sxn := EvalSum(m, s, e, x, x0n, x1, xn - x0n);
    ghost var S1 := m[..];
    NumKeep(M, S1, s, e, y, y0n);
    NumKeep(M, S1, s, e, y1, yn - y0n);
    syn := EvalSum(m, s + e, e, y, y0n, y1, yn - y0n);
    NumKeep(S1, m[..], s + e, e, s, sxn);
  }

  /** z = x0 * y0 and z + p = x1 * y1, with p = 2 * (half + 1). */
  method OuterProducts(m: array<Limb>, z: nat, x: nat, xn: nat, y: nat, yn: nat, s: nat, end: nat, half: nat)
    requires xn <= 2 * half && yn <= 2 * half && half + 1 < Max(xn, yn)
    requires x + xn <= m.Length && y + yn <= m.Length
    requires z + 4 * (half + 1) <= s && s + ScratchSize(half + 1) <= end <= m.Length
    requires Apart(z, end - z, x, xn) && Apart(z, end - z, y, yn)
    modifies m
    ensures Same(old(m[..]), m[..], z, end - z)
    ensures Num(m[..], z, 2 * (half + 1)) == old(Times(Low(m[..], x, xn, half), Low(m[..], y, yn, half)))
    ensures Num(m[..], z + 2 * (half + 1), 2 * (half + 1))
      == old(Times(High(m[..], x, xn, half), High(m[..], y, yn, half)))
    decreases Max(xn, yn), 0, 0
  {
    hide Num, Val, Pw, ScratchSize, Same, Times, Low, High;
    ghost var M := m[..];
    var e := half + 1;
    var p := 2 * e;
    LowProduct(m, z, x, xn, y, yn, s, end, half);
    ghost var S := m[..];
    KeepParts(M, S, z, end - z, x, xn, y, yn, half);
    HighProduct(m, z + p, x, xn, y, yn, s, end, half);
    NumKeep(S, m[..], z + p, end - z - p, z, p);
    SameJoin(M, S, m[..], z, end - z, z + p, end - z - p, z, end - z);
  }

  method LowProduct(m: array<Limb>, z: nat, x: nat, xn: nat, y: nat, yn: nat, s: nat, end: nat, half: nat)
    requires half + 1 < Max(xn, yn) && x + xn <= m.Length && y + yn <= m.Length
    requires z + 2 * (half + 1) <= s && s + ScratchSize(half + 1) <= end <= m.Length
    requires Apart(z, end - z, x, xn) && Apart(z, end - z, y, yn)
    modifies m
    ensures Same(old(m[..]), m[..], z, end - z)
    ensures Num(m[..], z, 2 * (half + 1)) == old(Times(Low(m[..], x, xn, half), Low(m[..], y, yn, half)))
    decreases Max(xn, yn), 0, 0, 0
  {
    hide Num, Val, Pw, ScratchSize, Same, Times;
    var x0n, y0n := Min(xn, half), Min(yn, half);
    ScratchMono(Max(x0n, y0n), half + 1);
    MulInto(m, z, 2 * (half + 1), x, x0n, y, y0n, s, end);
  }

  method HighProduct(m: array<Limb>, z: nat, x: nat, xn: nat, y: nat, yn: nat, s: nat, end: nat, half: nat)
    requires xn <= 2 * half && yn <= 2 * half && half + 1 < Max(xn, yn)
    requires x + xn <= m.Length && y + yn <= m.Length
    requires z + 2 * (half + 1) <= s && s + ScratchSize(half + 1) <= end <= m.Length
    requires Apart(z, end - z, x, xn) && Apart(z, end - z, y, yn)
    modifies m
    ensures Same(old(m[..]), m[..], z, end - z)
    ensures Num(m[..], z, 2 * (half + 1)) == old(Times(High(m[..], x, xn, half), High(m[..], y, yn, half)))
    decreases Max(xn, yn), 0, 0, 0
  {
    hide Num, Val, Pw, ScratchSize, Same, Times;
    var x1n, y1n := xn - Min(xn, half), yn - Min(yn, half);
    var x1, y1 := if xn > half then x + half else x, if yn > half then y + half else y;
    ScratchMono(Max(x1n, y1n), half + 1);
    NumZero(m[..], x);
    NumZero(m[..], y);
    MulInto(m, z, 2 * (half + 1), x1, x1n, y1, y1n, s, end);
  }

  /** The three half-size products, left in z0, z2 and z1. */
  method Products(m: array<Limb>, x: nat, xn: nat, y: nat, yn: nat, s: nat, end: nat, half: nat)
    requires xn <= 2 * half && yn <= 2 * half && half + 1 < Max(xn, yn)
    requires x + xn <= m.Length && y + yn <= m.Length
    requires s + 8 * (half + 1) + ScratchSize(half + 1) <= end <= m.Length
    requires Apart(s, end - s, x, xn) && Apart(s, end - s, y, yn)
    modifies m
    ensures Same(old(m[..]), m[..], s, end - s)
    ensures Num(m[..], s + 2 * (half + 1), 2 * (half + 1))
      == old(Times(Low(m[..], x, xn, half), Low(m[..], y, yn, half)))
    ensures Num(m[..], s + 4 * (half + 1), 2 * (half + 1))
      == old(Times(High(m[..], x, xn, half), High(m[..], y, yn, half)))
    ensures Num(m[..], s + 6 * (half + 1), 2 * (half + 1))
         == old(Times(Low(m[..], x, xn, half) + High(m[..], x, xn, half),
           Low(m[..], y, yn, half) + High(m[..], y, yn, half)))
    decreases Max(xn, yn), 0, 1
  {
    hide Num, Val, Pw, Low, High, ScratchSize, Same, Times;
    ghost var M := m[..];
    var e := half + 1;
    var sxn, syn := EvalBoth(m, x, xn, y, yn, s, half);
    ghost var S := m[..];
    KeepParts(M, S, s, 2 * e, x, xn, y, yn, half);
    OuterProducts(m, s + 2 * e, x, xn, y, yn, s + 8 * e, end, half);
    ghost var T := m[..];
    NumKeep(S, T, s + 2 * e, end - s - 2 * e, s, sxn);
    NumKeep(S, T, s + 2 * e, end - s - 2 * e, s + e, syn);
    ScratchMono(Max(sxn, syn), e);
    MulInto(m, s + 6 * e, 2 * e, s, sxn, s + e, syn, s + 8 * e, end);
    NumKeep(T, m[..], s + 6 * e, end - s - 6 * e, s + 2 * e, 2 * e);
    NumKeep(T, m[..], s + 6 * e, end - s - 6 * e, s + 4 * e, 2 * e);
    SameJoin(M, S, T, s, 2 * e, s + 2 * e, end - s - 2 * e, s, end - s);
    SameJoin(M, T, m[..], s, end - s, s + 6 * e, end - s - 6 * e, s, end - s);
  }

  lemma KeepPart(s: seq<Limb>, t: seq<Limb>, a: nat, an: nat, x: nat, xn: nat, h: nat)
    requires Same(s, t, a, an) && x + xn <= |s| && Apart(a, an, x, xn)
    ensures Low(s, x, xn, h) == Low(t, x, xn, h) && High(s, x, xn, h) == High(t, x, xn, h)
  {
    hide Num, Val, Same;
    NumKeep(s, t, a, an, x, Min(xn, h));
    if xn > h { NumKeep(s, t, a, an, x + h, xn - h); }
  }

  lemma KeepParts(s: seq<Limb>, t: seq<Limb>, a: nat, an: nat, x: nat, xn: nat, y: nat, yn: nat, h: nat)
    requires Same(s, t, a, an) && x + xn <= |s| && y + yn <= |s|
    requires Apart(a, an, x, xn) && Apart(a, an, y, yn)
    ensures Low(s, x, xn, h) == Low(t, x, xn, h) && High(s, x, xn, h) == High(t, x, xn, h)
    ensures Low(s, y, yn, h) == Low(t, y, yn, h) && High(s, y, yn, h) == High(t, y, yn, h)
  {
    KeepPart(s, t, a, an, x, xn, h);
    KeepPart(s, t, a, an, y, yn, h);
  }

  lemma CrossTerm(x0: nat, x1: nat, y0: nat, y1: nat)
    ensures Times(x0 + x1, y0 + y1) == Times(x0, y0) + Times(x1, y1) + (Times(x0, y1) + Times(x1, y0))
    ensures Times(x0, y1) + Times(x1, y0) >= 0 && Times(x0, y0) >= 0 && Times(x1, y1) >= 0
  {
    NonNeg(x0, y1);
    NonNeg(x1, y0);
    NonNeg(x0, y0);
    NonNeg(x1, y1);
    Dist(x0, x1, y0 + y1);
  }

  /** z1 - z0 - z2 never underflows. */
  lemma NoBorrow(b1: nat, b2: nat, p: nat, v: nat, z1: nat, z0: nat, z2: nat)
    requires v == z1 - z0 + b1 * p - z2 + b2 * p
    requires z1 >= z0 + z2 && v < p && b1 <= 1 && b2 <= 1
    ensures b1 == 0 && b2 == 0
  {
  }

  /** The product of two linear polynomials. */
  lemma Linear2(a0: int, a1: int, b0: int, b1: int, h: int)
    ensures (a0 + a1 * h) * (b0 + b1 * h) == a0 * b0 + (a0 * b1 + a1 * b0) * h + a1 * b1 * (h * h)
  {
    FourTerms(a0, a1 * h, b0, b1 * h);
    MiddleTerms(a0, b1, a1, b0, h);
    TwoScaled(a1, b1, h);
  }

  lemma FourTerms(a: int, u: int, b: int, w: int)
    ensures (a + u) * (b + w) == a * b + a * w + u * b + u * w
  {
    Dist(a, u, b + w);
    DistL(a, b, w);
    DistL(u, b, w);
  }

  lemma MiddleTerms(a: int, b: int, c: int, d: int, h: int)
    ensures a * (b * h) + (c * h) * d == (a * b + c * d) * h
  {
    Assoc(a, b, h);
    SwapLast(c, h, d);
    Dist(a * b, c * d, h);
  }

  lemma SwapLast(a: int, b: int, c: int)
    ensures (a * b) * c == (a * c) * b
  {
    Assoc(a, b, c);
    Assoc(a, c, b);
    assert b * c == c * b;
  }

  lemma TwoScaled(a: int, b: int, h: int)
    ensures (a * h) * (b * h) == a * b * (h * h)
  {
    Assoc(a * h, b, h);
    SwapLast(a, h, b);
    Assoc(a * b, h, h);
  }

  lemma Reassemble(x0: nat, x1: nat, y0: nat, y1: nat, h: nat)
    ensures Times(x0, y0) + (Times(x0, y1) + Times(x1, y0)) * h + Times(x1, y1) * (h * h)
      == Times(x0 + x1 * h, y0 + y1 * h)
  {
    Linear2(x0, x1, y0, y1, h);
  }

  /** The three parts make up the product, which fits the result. */
  lemma WholeProduct(M: seq<Limb>, x: nat, xn: nat, y: nat, yn: nat, half: nat)
    requires x + xn <= |M| && y + yn <= |M|
    ensures var X0, X1, Y0, Y1 := Low(M, x, xn, half), High(M, x, xn, half), Low(M, y, yn, half), High(M, y, yn, half);
      Times(X0, Y0) + (Times(X0, Y1) + Times(X1, Y0)) * Pw(half) + Times(X1, Y1) * Pw(2 * half)
        == Num(M, x, xn) * Num(M, y, yn) < Pw(xn + yn)
  {
    hide Num, Val, Pw, Low, High, Times;
    Reassemble(Low(M, x, xn, half), High(M, x, xn, half), Low(M, y, yn, half), High(M, y, yn, half), Pw(half));
    PwAdd(half, half);
    LowHigh(M, x, xn, half);
    LowHigh(M, y, yn, half);
    NumBound(M, x, xn);
    NumBound(M, y, yn);
    ProductBound(Num(M, x, xn), Num(M, y, yn), xn, yn);
  }

  lemma ProductBound(a: nat, b: nat, an: nat, bn: nat)
    requires a < Pw(an) && b < Pw(bn)
    ensures 0 <= a * b < Pw(an + bn) && Times(a, b) == a * b
  {
    PwAdd(an, bn);
    NonNeg(a, b);
    MulLe(a, Pw(an), b);
    MulLt(b, Pw(bn), Pw(an));
  }

  /** A nonzero limb at the top of v bounds how long v can be. */
  lemma FitsAt(s: seq<Limb>, z: nat, n: nat, off: nat, len: nat, total: nat)
    requires z + n <= |s| && n > 0 && s[z + n - 1] != 0
    requires Num(s, z, n) * Pw(off) <= total < Pw(len)
    ensures off + n <= len
  {
    ValTop(s[z..z + n]);
    MulLe(Pw(n - 1), Num(s, z, n), Pw(off));
    PwAdd(n - 1, off);
    if off + n > len {
      PwMono(len, n - 1 + off);
      assert false;
    }
  }

  /** result = z0 + z1 * B^half + z2 * B^(2 half), each added at its offset. */
  method Combine(m: array<Limb>, r: nat, len: nat, z0: nat, z1: nat, z2: nat, p: nat, half: nat)
    requires r + len <= m.Length && z0 + p <= m.Length && z1 + p <= m.Length && z2 + p <= m.Length
    requires Apart(r, len, z0, p) && Apart(r, len, z1, p) && Apart(r, len, z2, p)
    requires Num(m[..], z0, p) + Num(m[..], z1, p) * Pw(half) + Num(m[..], z2, p) * Pw(2 * half) < Pw(len)
    modifies m
    ensures Num(m[..], r, len)
         == old(Num(m[..], z0, p) + Num(m[..], z1, p) * Pw(half) + Num(m[..], z2, p) * Pw(2 * half))
    ensures Same(old(m[..]), m[..], r, len)
  {
    hide Num, Val;
    ghost var M := m[..];
    ghost var total := Num(M, z0, p) + Num(M, z1, p) * Pw(half) + Num(M, z2, p) * Pw(2 * half);
    NonNeg(Num(M, z1, p), Pw(half));
    NonNeg(Num(M, z2, p), Pw(2 * half));
    Zero(m, r, len);
    var n0 := TrimLen(m, z0, p, 0);
    KeepAll(M, m[..], r, len, z0, z1, z2, p);
    assert Num(m[..], z0, n0) * Pw(0) == Num(M, z0, p);
    if n0 > 0 {
      FitsAt(m[..], z0, n0, 0, len, total);
      CopyI(m, r, z0, n0);
      NumTrim(m[..], r, n0, len);
    } else {
      NumZero(m[..], z0);
    }
    assert Num(m[..], r, len) == Num(M, z0, p);
    KeepAll(M, m[..], r, len, z0, z1, z2, p);
    AddTrimmed(m, r, len, z1, p, half, total);
    KeepAll(M, m[..], r, len, z0, z1, z2, p);
    AddTrimmed(m, r, len, z2, p, 2 * half, total);
  }

  lemma KeepAll(s: seq<Limb>, t: seq<Limb>, r: nat, len: nat, z0: nat, z1: nat, z2: nat, p: nat)
    requires Same(s, t, r, len) && z0 + p <= |s| && z1 + p <= |s| && z2 + p <= |s|
    requires Apart(r, len, z0, p) && Apart(r, len, z1, p) && Apart(r, len, z2, p)
    ensures Num(s, z0, p) == Num(t, z0, p) && Num(s, z1, p) == Num(t, z1, p) && Num(s, z2, p) == Num(t, z2, p)
  {
    NumKeep(s, t, r, len, z0, p);
    NumKeep(s, t, r, len, z1, p);
    NumKeep(s, t, r, len, z2, p);
  }

  /** The significant limbs of z added at an offset; nothing is lost. */
  method AddTrimmed(m: array<Limb>, r: nat, len: nat, z: nat, p: nat, off: nat, ghost total: nat)
    requires r + len <= m.Length && z + p <= m.Length && Apart(r, len, z, p)
    requires Num(m[..], r, len) + Num(m[..], z, p) * Pw(off) <= total < Pw(len)
    modifies m
    ensures Num(m[..], r, len) == old(Num(m[..], r, len) + Num(m[..], z, p) * Pw(off))
    ensures Same(old(m[..]), m[..], r, len)
  {
    hide Num, Val;
    var n := TrimLen(m, z, p, 0);
    if n > 0 {
      FitsAt(m[..], z, n, off, len, total);
      ghost var lost := AddAt(m, r, len, z, n, off);
      LostZero(lost, Pw(len), Num(m[..], r, len), total);
    } else {
      NumZero(m[..], z);
    }
  }
}
