/** The recursive Toom-3 product and square (lib/sp_bigint.c:1316-1631, 1636-1845). */
module Toom3 {
  import opened Limbs
  import opened Mpn
  import opened Mul
  import K = Karatsuba
  import opened ToomSteps

  const TOOM3_THRESHOLD: nat := 100

  /** toom3_scratch_size. */
  function ScratchSize(n: nat): nat {
    if n < TOOM3_THRESHOLD then K.ScratchSize(n)
    else
      var e := n / 3 + 3;
      var p := 2 * e + 16;
      (6 * e + 5 * p) + K.Max(ScratchSize(e), 4 * p) + 8
  }

  // ----- the scratch buffer is large enough at every depth -----

  /** Recursion depth of the Karatsuba scratch sizes. */
  ghost function Depth(n: nat): nat {
    if n < K.KARATSUBA_THRESHOLD then 0 else 1 + Depth((n + 1) / 2 + 1)
  }

  lemma {:induction false} DepthMono(a: nat, b: nat)
    requires a <= b
    ensures Depth(a) <= Depth(b)
  {
    if a >= K.KARATSUBA_THRESHOLD {
      DepthMono((a + 1) / 2 + 1, (b + 1) / 2 + 1);
    }
  }

  lemma {:induction false} KaratsubaNeeds(n: nat)
    ensures K.ScratchSize(n) <= 8 * n + 32 * Depth(n)
  {
    if n >= K.KARATSUBA_THRESHOLD {
      KaratsubaNeeds((n + 1) / 2 + 1);
    }
  }

  lemma {:induction false} ToomHas(n: nat)
    requires n >= TOOM3_THRESHOLD
    ensures ScratchSize(n) >= 8 * n + 32 * Depth(n)
  {
    hide Depth;
    var e := n / 3 + 3;
    DepthStep(n);
    if e >= TOOM3_THRESHOLD {
      ToomHas(e);
    } else {
      DepthSmall(e);
    }
  }

  /** Two levels of halving go at least as deep as one of thirds. */
  lemma DepthStep(n: nat)
    requires n >= TOOM3_THRESHOLD
    ensures Depth(n) <= 2 + Depth(n / 3 + 3)
  {
    var h := (n + 1) / 2 + 1;
    assert Depth(n) == 1 + Depth(h) == 2 + Depth((h + 1) / 2 + 1);
    DepthMono((h + 1) / 2 + 1, n / 3 + 3);
  }

  lemma DepthSmall(n: nat)
    requires n < TOOM3_THRESHOLD
    ensures Depth(n) <= 2
  {
    DepthMono(n, 99);
    assert Depth(99) == 1 + Depth(51) == 2 + Depth(27);
  }

  /** A call that falls back to Karatsuba finds its scratch in the Toom-3 buffer. */
  lemma ToomCoversKaratsuba(n: nat)
    ensures K.ScratchSize(n) <= ScratchSize(n)
  {
    if n >= TOOM3_THRESHOLD {
      KaratsubaNeeds(n);
      ToomHas(n);
    }
  }

  lemma {:induction false} ScratchMono(a: nat, b: nat)
    requires a <= b
    ensures ScratchSize(a) <= ScratchSize(b)
  {
    if a >= TOOM3_THRESHOLD {
      ScratchMono(a / 3 + 3, b / 3 + 3);
    } else {
      K.ScratchMono(a, b);
      ToomCoversKaratsuba(b);
    }
  }

  // ----- splitting into thirds -----

  ghost function P0(s: seq<Limb>, x: nat, xn: nat, t: nat): nat
    requires x + xn <= |s|
  {
    Num(s, x, K.Min(xn, t))
  }

  ghost function P1(s: seq<Limb>, x: nat, xn: nat, t: nat): nat
    requires x + xn <= |s|
  {
    if xn > t then Num(s, x + t, K.Min(xn - t, t)) else 0
  }

  ghost function P2(s: seq<Limb>, x: nat, xn: nat, t: nat): nat
    requires x + xn <= |s|
  {
    if xn > 2 * t then Num(s, x + 2 * t, xn - 2 * t) else 0
  }

  lemma PartsSum(s: seq<Limb>, x: nat, xn: nat, t: nat)
    requires x + xn <= |s|
    ensures Num(s, x, xn) == P0(s, x, xn, t) + P1(s, x, xn, t) * Pw(t) + P2(s, x, xn, t) * (Pw(t) * Pw(t))
  {
    hide Num, Val, Pw;
    if xn > t {
      NumSplit(s, x, t, xn - t);
      if xn > 2 * t {
        NumSplit(s, x + t, t, xn - 2 * t);
        Dist(Num(s, x + t, t), Num(s, x + 2 * t, xn - 2 * t) * Pw(t), Pw(t));
        Assoc(Num(s, x + 2 * t, xn - 2 * t), Pw(t), Pw(t));
      }
    }
  }

  lemma PartsBound(s: seq<Limb>, x: nat, xn: nat, t: nat)
    requires x + xn <= |s| && xn <= 3 * t + 2
    ensures P0(s, x, xn, t) < Pw(t) && P1(s, x, xn, t) < Pw(t) && P2(s, x, xn, t) < Pw(t + 2)
  {
    hide Num, Val, Pw;
    NumBound(s, x, K.Min(xn, t));
    PwMono(K.Min(xn, t), t);
    if xn > t {
      NumBound(s, x + t, K.Min(xn - t, t));
      PwMono(K.Min(xn - t, t), t);
    }
    if xn > 2 * t {
      NumBound(s, x + 2 * t, xn - 2 * t);
      PwMono(xn - 2 * t, t + 2);
    }
  }

  lemma PartsKeep(s: seq<Limb>, u: seq<Limb>, a: nat, an: nat, x: nat, xn: nat, t: nat)
    requires Same(s, u, a, an) && x + xn <= |s| && Apart(a, an, x, xn)
    ensures P0(s, x, xn, t) == P0(u, x, xn, t)
    ensures P1(s, x, xn, t) == P1(u, x, xn, t)
    ensures P2(s, x, xn, t) == P2(u, x, xn, t)
  {
    hide Num;
    NumKeep(s, u, a, an, x, K.Min(xn, t));
    if xn > t { NumKeep(s, u, a, an, x + t, K.Min(xn - t, t)); }
    if xn > 2 * t { NumKeep(s, u, a, an, x + 2 * t, xn - 2 * t); }
  }

  // ----- evaluation -----

  /** v = x0 + x1 + x2. */
  method EvalOne(m: array<Limb>, v: nat, e: nat, x: nat, xn: nat, t: nat) returns (len: nat)
    requires e == t + 3 && xn <= 3 * t + 2
    requires v + e <= m.Length && x + xn <= m.Length && Apart(v, e, x, xn)
    modifies m
    ensures 1 <= len <= e
    ensures Num(m[..], v, len) == old(P0(m[..], x, xn, t) + P1(m[..], x, xn, t) + P2(m[..], x, xn, t))
    ensures Same(old(m[..]), m[..], v, e)
  {
    hide Num, Val, Pw, P0, P1, P2;
    ghost var M := m[..];
    PartsRoom(M, x, xn, t);
    CopyLow(m, v, e, x, xn, t);
    PartsKeep(M, m[..], v, e, x, xn, t);
    PartOne(m[..], x, xn, t);
    if xn > t {
      AddPart(m, v, e, x + t, K.Min(xn - t, t));
    }
    PartsKeep(M, m[..], v, e, x, xn, t);
    PartTwo(m[..], x, xn, t);
    if xn > 2 * t {
      AddPart(m, v, e, x + 2 * t, xn - 2 * t);
    }
    len := TrimLen(m, v, e, 1);
  }

  /** mpn_toom3_eval2: v = x0 + 2 x1 + 4 x2. */
  method EvalTwo(m: array<Limb>, v: nat, e: nat, x: nat, xn: nat, t: nat) returns (len: nat)
    requires e == t + 3 && xn <= 3 * t + 2
    requires v + e <= m.Length && x + xn <= m.Length && Apart(v, e, x, xn)
    modifies m
    ensures 1 <= len <= e
    ensures Num(m[..], v, len) == old(P0(m[..], x, xn, t) + 2 * P1(m[..], x, xn, t) + 4 * P2(m[..], x, xn, t))
    ensures Same(old(m[..]), m[..], v, e)
  {
    hide Num, Val, Pw, P0, P1, P2;
    ghost var M := m[..];
    PartsRoom(M, x, xn, t);
    CopyLow(m, v, e, x, xn, t);
    PartsKeep(M, m[..], v, e, x, xn, t);
    PartOne(m[..], x, xn, t);
    if xn > t {
      AddTimes(m, v, e, x + t, K.Min(xn - t, t), 2);
    }
    PartsKeep(M, m[..], v, e, x, xn, t);
    PartTwo(m[..], x, xn, t);
    if xn > 2 * t {
      AddTimes(m, v, e, x + 2 * t, xn - 2 * t, 4);
    }
    len := TrimLen(m, v, e, 1);
  }

  /** t + 3 limbs hold every evaluation. */
  lemma PartsRoom(s: seq<Limb>, x: nat, xn: nat, t: nat)
    requires x + xn <= |s| && xn <= 3 * t + 2
    ensures P0(s, x, xn, t) + 2 * P1(s, x, xn, t) + 4 * P2(s, x, xn, t) < Pw(t + 3)
  {
    hide Num, P0, P1, P2;
    PartsBound(s, x, xn, t);
    PwMono(t, t + 2);
    assert Pw(t + 3) == BASE * Pw(t + 2);
  }

  /** v += b where nothing overflows. */
  method AddPart(m: array<Limb>, v: nat, e: nat, b: nat, bn: nat)
    requires bn <= e && v + e <= m.Length && b + bn <= m.Length && Apart(v, e, b, bn)
    requires Num(m[..], v, e) + Num(m[..], b, bn) < Pw(e)
    modifies m
    ensures Num(m[..], v, e) == old(Num(m[..], v, e) + Num(m[..], b, bn))
    ensures Same(old(m[..]), m[..], v, e)
  {
    hide Num, Val, Pw;
    ghost var M := m[..];
    var carry := Add(m, v, v, e, b, bn);
    LostZero(carry, Pw(e), Num(m[..], v, e), Num(M, v, e) + Num(M, b, bn));
  }

  lemma PartOne(s: seq<Limb>, x: nat, xn: nat, t: nat)
    requires x + xn <= |s|
    ensures P1(s, x, xn, t) == (if xn > t then Num(s, x + t, K.Min(xn - t, t)) else 0)
  {
  }

  lemma PartTwo(s: seq<Limb>, x: nat, xn: nat, t: nat)
    requires x + xn <= |s|
    ensures P2(s, x, xn, t) == (if xn > 2 * t then Num(s, x + 2 * t, xn - 2 * t) else 0)
  {
  }

  /** The low third, extended with zero limbs. */
  method CopyLow(m: array<Limb>, v: nat, e: nat, x: nat, xn: nat, t: nat)
    requires t <= e && v + e <= m.Length && x + xn <= m.Length && Apart(v, e, x, xn)
    modifies m
    ensures Num(m[..], v, e) == old(P0(m[..], x, xn, t))
    ensures Same(old(m[..]), m[..], v, e)
  {
    hide Num, Val, Pw;
    ghost var M := m[..];
    Zero(m, v, e);
    NumKeep(M, m[..], v, e, x, K.Min(xn, t));
    CopyI(m, v, x, K.Min(xn, t));
    NumTrim(m[..], v, K.Min(xn, t), e);
  }

  /** v += c * b where nothing overflows. */
  method AddTimes(m: array<Limb>, v: nat, e: nat, b: nat, bn: nat, c: Limb)
    requires bn <= e && v + e <= m.Length && b + bn <= m.Length && Apart(v, e, b, bn)
    requires Num(m[..], v, e) + Num(m[..], b, bn) * c < Pw(e)
    modifies m
    ensures Num(m[..], v, e) == old(Num(m[..], v, e) + Num(m[..], b, bn) * c)
    ensures Same(old(m[..]), m[..], v, e)
  {
    hide Num, Val, Pw;
    ghost var M := m[..];
    ghost var lost := AddMulAt(m, v, e, 0, b, bn, c);
    PwZero();
    LostZero(lost, Pw(e), Num(m[..], v, e), Num(M, v, e) + Num(M, b, bn) * c);
  }

  /** v = |x0 - x1 + x2|, with the sign. */
  method EvalMinusOne(m: array<Limb>, v: nat, e: nat, x: nat, xn: nat, t: nat) returns (len: nat, neg: bool)
    requires e == t + 3 && xn <= 3 * t + 2
    requires v + e <= m.Length && x + xn <= m.Length && Apart(v, e, x, xn)
    modifies m
    ensures 1 <= len <= e
    ensures Signed(neg, Num(m[..], v, len))
         == old(P0(m[..], x, xn, t) as int - P1(m[..], x, xn, t) + P2(m[..], x, xn, t))
    ensures Same(old(m[..]), m[..], v, e)
  {
    hide Num, Val, Pw, P0, P1, P2;
    ghost var M := m[..];
    PartsRoom(M, x, xn, t);
    CopyLow(m, v, e, x, xn, t);
    PartsKeep(M, m[..], v, e, x, xn, t);
    PartTwo(m[..], x, xn, t);
    neg := false;
    if xn > 2 * t {
      AddPart(m, v, e, x + 2 * t, xn - 2 * t);
    }
    PartsKeep(M, m[..], v, e, x, xn, t);
    PartOne(m[..], x, xn, t);
    if xn > t {
      var borrow := Sub(m, v, v, e, x + t, K.Min(xn - t, t));
      NumBound(m[..], v, e);
      neg := borrow == 1;
      if neg {
        Neg(m, v, e);
      }
    }
    len := TrimLen(m, v, e, 1);
  }

  // ----- reassembly -----

  /** Slot i added into the result at an offset; nothing is lost. */
  method AddSlot(m: array<Limb>, r: nat, rl: nat, b: nat, p: nat, i: nat, off: nat, ghost total: nat)
    requires i < 9 && b + 9 * p <= m.Length && r + rl <= m.Length && off + p <= rl
    requires Apart(r, rl, b, 9 * p)
    requires Num(m[..], r, rl) + Slot(m[..], b, p, i) * Pw(off) <= total < Pw(rl)
    modifies m
    ensures Num(m[..], r, rl) == old(Num(m[..], r, rl) + Slot(m[..], b, p, i) * Pw(off))
    ensures Same(old(m[..]), m[..], r, rl)
  {
    hide Num, Val, Pw;
    SlotFits(i, p);
    ghost var lost := AddAt(m, r, rl, b + i * p, p, off);
    LostZero(lost, Pw(rl), Num(m[..], r, rl), total);
  }

  lemma SlotsKeep(s: seq<Limb>, t: seq<Limb>, a: nat, an: nat, b: nat, p: nat)
    requires Same(s, t, a, an) && b + 9 * p <= |s| && Apart(a, an, b, 9 * p)
    ensures forall q: nat :: q < 9 ==> Slot(t, b, p, q) == Slot(s, b, p, q)
  {
    forall q: nat | q < 9 ensures Slot(t, b, p, q) == Slot(s, b, p, q) {
      SlotFits(q, p);
      NumKeep(s, t, a, an, b + q * p, p);
    }
  }

  /** The product, given its five coefficients at limb offsets 0, t, 2t, 3t and 4t. */
  ghost function Poly(c0: nat, c1: nat, c2: nat, c3: nat, c4: nat, t: nat): (v: int)
    ensures v >= c0 && v >= c0 + c1 * Pw(t) && v >= c0 + c1 * Pw(t) + c2 * Pw(2 * t)
    ensures v >= c0 + c1 * Pw(t) + c2 * Pw(2 * t) + c3 * Pw(3 * t)
  {
    NonNeg(c1, Pw(t));
    NonNeg(c2, Pw(2 * t));
    NonNeg(c3, Pw(3 * t));
    NonNeg(c4, Pw(4 * t));
    c0 + c1 * Pw(t) + c2 * Pw(2 * t) + c3 * Pw(3 * t) + c4 * Pw(4 * t)
  }

  /** result = r0 + r1 B^t + r2 B^(2t) + r3 B^(3t) + r4 B^(4t). */
  method Assemble(m: array<Limb>, r: nat, rl: nat, b: nat, p: nat, t: nat,
                  ghost c0: nat, ghost c1: nat, ghost c2: nat, ghost c3: nat, ghost c4: nat)
    requires b + 9 * p <= m.Length && r + rl <= m.Length && Apart(r, rl, b, 9 * p)
    requires 2 * t <= p && 4 * t + p <= rl
    requires Slot(m[..], b, p, 0) == c0 < Pw(2 * t) && Slot(m[..], b, p, 6) == c1 && Slot(m[..], b, p, 8) == c2
    requires Slot(m[..], b, p, 5) == c3 && Slot(m[..], b, p, 4) == c4
    requires Poly(c0, c1, c2, c3, c4, t) < Pw(rl)
    modifies m
    ensures Num(m[..], r, rl) == Poly(c0, c1, c2, c3, c4, t)
    ensures Same(old(m[..]), m[..], r, rl)
  {
    hide Num, Val, Pw, Slot;
    ghost var M := m[..];
    ghost var total := Poly(c0, c1, c2, c3, c4, t);
    NonNeg(c1, Pw(t));
    CopySlotZero(m, r, rl, b, p, 2 * t);
    SlotsKeep(M, m[..], r, rl, b, p);
    AddSlot(m, r, rl, b, p, 6, t, total);
    SlotsKeep(M, m[..], r, rl, b, p);
    AddSlot(m, r, rl, b, p, 8, 2 * t, total);
    SlotsKeep(M, m[..], r, rl, b, p);
    AddSlot(m, r, rl, b, p, 5, 3 * t, total);
    SlotsKeep(M, m[..], r, rl, b, p);
    AddSlot(m, r, rl, b, p, 4, 4 * t, total);
  }

  /** The result cleared and the low limbs of slot 0 copied in. */
  method CopySlotZero(m: array<Limb>, r: nat, rl: nat, b: nat, p: nat, n: nat)
    requires b + 9 * p <= m.Length && r + rl <= m.Length && Apart(r, rl, b, 9 * p)
    requires n <= p && n <= rl && Slot(m[..], b, p, 0) < Pw(n)
    modifies m
    ensures Num(m[..], r, rl) == old(Slot(m[..], b, p, 0))
    ensures Same(old(m[..]), m[..], r, rl)
  {
    hide Val, Pw;
    ghost var M := m[..];
    ValSmall(M[b..b + p], n);
    assert forall i :: b + n <= i < b + p ==> M[i] == M[b..b + p][i - b];
    NumTrim(M, b, n, p);
    Zero(m, r, rl);
    NumKeep(M, m[..], r, rl, b, n);
    CopyI(m, r, b, n);
    NumTrim(m[..], r, n, rl);
  }

  // ----- the product -----

  /** How many limbs of the result region a call writes. */
  function ResLen(xn: nat, yn: nat): nat {
    if K.Min(xn, yn) < TOOM3_THRESHOLD then xn + yn else 2 * K.Max(xn, yn) + 24
  }

  /**
    One pointwise product into the slot at z. The recursive call may write up
    to eight limbs past the slot; it leaves zeros there, as it found them.
   */
  method PointMul(m: array<Limb>, z: nat, p: nat, a: nat, an: nat, b: nat, bn: nat, rs: nat, end: nat)
    requires a + an <= m.Length && b + bn <= m.Length
    requires 2 * K.Max(an, bn) + 16 <= p && z + p <= rs && (z + p < rs ==> z + p + 8 <= rs)
    requires rs + ScratchSize(K.Max(an, bn)) + 8 <= end <= m.Length
    requires Apart(z, end - z, a, an) && Apart(z, end - z, b, bn)
    requires forall k :: z <= k < rs ==> m[k] == 0
    modifies m
    ensures Num(m[..], z, p) == old(Times(Num(m[..], a, an), Num(m[..], b, bn)))
    ensures forall k :: z + p <= k < rs ==> m[k] == 0
    ensures Same(old(m[..]), m[..], z, end - z)
    decreases K.Max(an, bn), 1
  {
    hide Num, Val, Pw, ScratchSize;
    ghost var M := m[..];
    NumBound(M, a, an);
    NumBound(M, b, bn);
    K.ProductBound(Num(M, a, an), Num(M, b, bn), an, bn);
    MulLimbs(m, z, a, an, b, bn, rs, end);
    SmallAbove(m[..], z, ResLen(an, bn), an + bn);
    SamePrefix(m[..], z, an + bn, ResLen(an, bn), p);
  }

  lemma SmallAbove(s: seq<Limb>, z: nat, len: nat, n: nat)
    requires z + len <= |s| && n <= len && Num(s, z, len) < Pw(n)
    ensures forall k :: z + n <= k < z + len ==> s[k] == 0
  {
    ValSmall(s[z..z + len], n);
    assert forall k :: z + n <= k < z + len ==> s[k] == s[z..z + len][k - z];
  }

  /** Widths that differ only by zero limbs hold the same number. */
  lemma SamePrefix(s: seq<Limb>, z: nat, n: nat, l1: nat, l2: nat)
    requires n <= l1 && n <= l2 && z + l1 <= |s| && z + l2 <= |s|
    requires forall k :: z + n <= k < z + l1 || z + n <= k < z + l2 ==> s[k] == 0
    ensures Num(s, z, l1) == Num(s, z, l2)
  {
    NumTrim(s, z, n, l1);
    NumTrim(s, z, n, l2);
  }

  /** mpz_mul_toom3. */
  method MulLimbs(m: array<Limb>, r: nat, x: nat, xn: nat, y: nat, yn: nat, s: nat, end: nat)
    requires r + ResLen(xn, yn) <= m.Length && x + xn <= m.Length && y + yn <= m.Length
    requires s + ScratchSize(K.Max(xn, yn)) <= end <= m.Length
    requires Apart(r, ResLen(xn, yn), x, xn) && Apart(r, ResLen(xn, yn), y, yn)
    requires Apart(s, end - s, x, xn) && Apart(s, end - s, y, yn)
    requires end <= r || (r + xn + yn <= s && r + ResLen(xn, yn) <= s + 8)
    modifies m
    ensures Num(m[..], r, ResLen(xn, yn)) == old(Num(m[..], x, xn) * Num(m[..], y, yn))
    ensures K.Same2(old(m[..]), m[..], r, ResLen(xn, yn), s, end - s)
    decreases K.Max(xn, yn), 0
  {
    hide Num, Val, Pw;
    if K.Min(xn, yn) < TOOM3_THRESHOLD {
      ToomCoversKaratsuba(K.Max(xn, yn));
      if K.Min(xn, yn) >= K.KARATSUBA_THRESHOLD {
        K.MulLimbs(m, r, x, xn, y, yn, s);
      } else {
        MulBasicLimbs(m, r, x, xn, y, yn);
      }
      return;
    }
    MulThirds(m, r, x, xn, y, yn, s, end);
  }

  /** The recursive case: split, evaluate, multiply, interpolate, reassemble. */
  method MulThirds(m: array<Limb>, r: nat, x: nat, xn: nat, y: nat, yn: nat, s: nat, end: nat)
    requires K.Min(xn, yn) >= TOOM3_THRESHOLD
    requires r + 2 * K.Max(xn, yn) + 24 <= m.Length && x + xn <= m.Length && y + yn <= m.Length
    requires s + ScratchSize(K.Max(xn, yn)) <= end <= m.Length
    requires Apart(s, end - s, x, xn) && Apart(s, end - s, y, yn)
    requires end <= r || r + 2 * K.Max(xn, yn) + 24 <= s + 8
    modifies m
    ensures Num(m[..], r, 2 * K.Max(xn, yn) + 24) == old(Num(m[..], x, xn) * Num(m[..], y, yn))
    ensures K.Same2(old(m[..]), m[..], r, 2 * K.Max(xn, yn) + 24, s, end - s)
    decreases K.Max(xn, yn), 0, 4
  {
    hide Num, Val, Pw, P0, P1, P2, Slot, ScratchSize;
    ghost var M := m[..];
    var t := K.Max(xn, yn) / 3;
    var neg := Points(m, x, xn, y, yn, s, end, t);
    Recover(m, r, M, x, xn, y, yn, s + 6 * (t + 3), t, neg);
  }

  /** Interpolation and reassembly: from the five point products to the product. */
  method Recover(m: array<Limb>, r: nat, ghost M: seq<Limb>, ghost x: nat, xn: nat, ghost y: nat, yn: nat,
                 b: nat, t: nat, neg: bool)
    requires x + xn <= |M| && y + yn <= |M| && t == K.Max(xn, yn) / 3
    requires b + 9 * (2 * t + 22) <= m.Length && r + 2 * K.Max(xn, yn) + 24 <= m.Length
    requires Apart(r, 2 * K.Max(xn, yn) + 24, b, 9 * (2 * t + 22))
    requires var p := 2 * t + 22;
             var X0, X1, X2 := P0(M, x, xn, t), P1(M, x, xn, t), P2(M, x, xn, t);
             var Y0, Y1, Y2 := P0(M, y, yn, t), P1(M, y, yn, t), P2(M, y, yn, t);
             && Slot(m[..], b, p, 0) == Times(X0, Y0)
             && Slot(m[..], b, p, 1) == Times(X0 + X1 + X2, Y0 + Y1 + Y2)
             && Signed(neg, Slot(m[..], b, p, 2)) == Times(X0 as int - X1 + X2, Y0 as int - Y1 + Y2)
             && Slot(m[..], b, p, 3) == Times(X0 + 2 * X1 + 4 * X2, Y0 + 2 * Y1 + 4 * Y2)
             && Slot(m[..], b, p, 4) == Times(X2, Y2)
    modifies m
    ensures Num(m[..], r, 2 * K.Max(xn, yn) + 24) == Times(Num(M, x, xn), Num(M, y, yn))
    ensures K.Same2(old(m[..]), m[..], r, 2 * K.Max(xn, yn) + 24, b, 9 * (2 * t + 22))
  {
    hide Num, Val, Pw, Times, P0, P1, P2, Poly, Slot;
    var n, p := K.Max(xn, yn), 2 * t + 22;
    ghost var X0, X2, Y0, Y2 := P0(M, x, xn, t), P2(M, x, xn, t), P0(M, y, yn, t), P2(M, y, yn, t);
    ghost var c1, c2, c3 := ProductCoefficients(M, x, xn, y, yn, t);
    Interpolate(m, b, p, neg, c1, c2, c3);
    PwMono(xn + yn, 2 * n + 24);
    Assemble(m, r, 2 * n + 24, b, p, t, Times(X0, Y0), c1, c2, c3, Times(X2, Y2));
  }

  /** The inner coefficients of the product polynomial, and what the five points give. */
  lemma ProductCoefficients(s: seq<Limb>, x: nat, xn: nat, y: nat, yn: nat, t: nat) returns (c1: nat, c2: nat, c3: nat)
    requires x + xn <= |s| && y + yn <= |s| && xn <= 3 * t + 2 && yn <= 3 * t + 2
    ensures var X0, X1, X2 := P0(s, x, xn, t), P1(s, x, xn, t), P2(s, x, xn, t);
            var Y0, Y1, Y2 := P0(s, y, yn, t), P1(s, y, yn, t), P2(s, y, yn, t);
            var c0, c4 := Times(X0, Y0), Times(X2, Y2);
            && 0 <= c0 < Pw(2 * t) && c4 >= 0
            && Times(X0 + X1 + X2, Y0 + Y1 + Y2) == c0 + c1 + c2 + c3 + c4
            && Times(X0 as int - X1 + X2, Y0 as int - Y1 + Y2) == c0 - c1 + c2 - c3 + c4
            && Times(X0 + 2 * X1 + 4 * X2, Y0 + 2 * Y1 + 4 * Y2) == c0 + 2 * c1 + 4 * c2 + 8 * c3 + 16 * c4
            && 4 * (c0 + 2 * c1 + 4 * c2 + 8 * c3 + 16 * c4) < Pw(2 * t + 22)
            && Poly(c0, c1, c2, c3, c4, t) == Times(Num(s, x, xn), Num(s, y, yn)) < Pw(xn + yn)
  {
    hide Num, Val, Pw, Times, P0, P1, P2, Poly, Inner1, Inner2, Inner3;
    var X0, X1, X2 := P0(s, x, xn, t), P1(s, x, xn, t), P2(s, x, xn, t);
    var Y0, Y1, Y2 := P0(s, y, yn, t), P1(s, y, yn, t), P2(s, y, yn, t);
    PointIdentities(X0, X1, X2, Y0, Y1, Y2);
    c1, c2, c3 := Inner1(X0, X1, Y0, Y1), Inner2(X0, X1, X2, Y0, Y1, Y2), Inner3(X1, X2, Y1, Y2);
    PointRoom(s, x, xn, y, yn, t);
    Thirds(s, x, xn, y, yn, t);
  }

  /** The inner coefficients. */
  ghost function Inner1(x0: nat, x1: nat, y0: nat, y1: nat): int { x0 * y1 + x1 * y0 }
  ghost function Inner2(x0: nat, x1: nat, x2: nat, y0: nat, y1: nat, y2: nat): int { x0 * y2 + x1 * y1 + x2 * y0 }
  ghost function Inner3(x1: nat, x2: nat, y1: nat, y2: nat): int { x1 * y2 + x2 * y1 }

  /** The five product values, from the coefficients of the two operands. */
  lemma PointIdentities(x0: nat, x1: nat, x2: nat, y0: nat, y1: nat, y2: nat)
    ensures Times(x0, y0) >= 0 && Times(x2, y2) >= 0
    ensures Inner1(x0, x1, y0, y1) >= 0 && Inner2(x0, x1, x2, y0, y1, y2) >= 0 && Inner3(x1, x2, y1, y2) >= 0
    ensures var c0, c1, c2, c3, c4 :=
              Times(x0, y0), Inner1(x0, x1, y0, y1), Inner2(x0, x1, x2, y0, y1, y2), Inner3(x1, x2, y1, y2),
                Times(x2, y2);
            && Times(x0 + x1 + x2, y0 + y1 + y2) == c0 + c1 + c2 + c3 + c4
            && Times(x0 as int - x1 + x2, y0 as int - y1 + y2) == c0 - c1 + c2 - c3 + c4
            && Times(x0 + 2 * x1 + 4 * x2, y0 + 2 * y1 + 4 * y2) == c0 + 2 * c1 + 4 * c2 + 8 * c3 + 16 * c4
  {
    NonNeg(x0, y0);
    NonNeg(x0, y1);
    NonNeg(x0, y2);
    NonNeg(x1, y0);
    NonNeg(x1, y1);
    NonNeg(x1, y2);
    NonNeg(x2, y0);
    NonNeg(x2, y1);
    NonNeg(x2, y2);
  }

  /** Four times the largest point value fits in a slot. */
  lemma PointRoom(s: seq<Limb>, x: nat, xn: nat, y: nat, yn: nat, t: nat)
    requires x + xn <= |s| && y + yn <= |s| && xn <= 3 * t + 2 && yn <= 3 * t + 2
    ensures 4 * Times(P0(s, x, xn, t) + 2 * P1(s, x, xn, t) + 4 * P2(s, x, xn, t),
                      P0(s, y, yn, t) + 2 * P1(s, y, yn, t) + 4 * P2(s, y, yn, t)) < Pw(2 * t + 22)
  {
    hide P0, P1, P2;
    PartsRoom(s, x, xn, t);
    PartsRoom(s, y, yn, t);
    K.ProductBound(P0(s, x, xn, t) + 2 * P1(s, x, xn, t) + 4 * P2(s, x, xn, t),
                   P0(s, y, yn, t) + 2 * P1(s, y, yn, t) + 4 * P2(s, y, yn, t), t + 3, t + 3);
    PwMono(t + 3 + (t + 3), 2 * t + 22);
  }

  lemma Linear3(a: int, b: int, c: int, h: int)
    ensures (a + b * h) * h == a * h + b * (h * h)
    ensures (a + b * h + c * (h * h)) * (h * h) == a * (h * h) + b * (h * h * h) + c * (h * h * h * h)
  {
    Dist(a, b * h, h);
    Assoc(b, h, h);
    var k := h * h;
    Dist(a + b * h, c * k, k);
    Dist(a, b * h, k);
    Assoc(b, h, k);
    Assoc(h, h, h);
    Assoc(c, k, k);
    Assoc(k, h, h);
  }

  lemma PolyProduct(x0: int, x1: int, x2: int, y0: int, y1: int, y2: int, h: int)
    ensures (x0 + x1 * h + x2 * (h * h)) * (y0 + y1 * h + y2 * (h * h))
         == x0 * y0 + (x0 * y1 + x1 * y0) * h + (x0 * y2 + x1 * y1 + x2 * y0) * (h * h)
          + (x1 * y2 + x2 * y1) * (h * h * h) + x2 * y2 * (h * h * h * h)
  {
    var u, v := x1 + x2 * h, y1 + y2 * h;
    Linear3(x1, x2, 0, h);
    Linear3(y1, y2, 0, h);
    K.Linear2(x0, u, y0, v, h);
    K.Linear2(x1, x2, y1, y2, h);
    DistL(x0, y1, y2 * h);
    Assoc(x0, y2, h);
    Dist(x1, x2 * h, y0);
    assert x0 * v + u * y0 == (x0 * y1 + x1 * y0) + (x0 * y2 + x2 * y0) * h by {
      Dist(x0 * y2, x2 * y0, h);
      assert (x2 * h) * y0 == x2 * y0 * h;
    }
    Linear3(x0 * y1 + x1 * y0, x0 * y2 + x2 * y0, 0, h);
    Linear3(x1 * y1, x1 * y2 + x2 * y1, x2 * y2, h);
    Dist(x0 * y2 + x2 * y0, x1 * y1, h * h);
  }

  lemma PwMultiples(t: nat)
    ensures Pw(2 * t) == Pw(t) * Pw(t)
    ensures Pw(3 * t) == Pw(t) * Pw(t) * Pw(t)
    ensures Pw(4 * t) == Pw(t) * Pw(t) * Pw(t) * Pw(t)
  {
    PwAdd(t, t);
    PwAdd(2 * t, t);
    PwAdd(3 * t, t);
  }

  /** The product of the operands is the polynomial in B^t, and it fits. */
  lemma Thirds(s: seq<Limb>, x: nat, xn: nat, y: nat, yn: nat, t: nat)
    requires x + xn <= |s| && y + yn <= |s| && xn <= 3 * t + 2 && yn <= 3 * t + 2
    ensures var X0, X1, X2 := P0(s, x, xn, t), P1(s, x, xn, t), P2(s, x, xn, t);
            var Y0, Y1, Y2 := P0(s, y, yn, t), P1(s, y, yn, t), P2(s, y, yn, t);
            var c1, c2, c3 := Inner1(X0, X1, Y0, Y1), Inner2(X0, X1, X2, Y0, Y1, Y2), Inner3(X1, X2, Y1, Y2);
            && 0 <= Times(X0, Y0) < Pw(2 * t) && c1 >= 0 && c2 >= 0 && c3 >= 0 && Times(X2, Y2) >= 0
            && Poly(Times(X0, Y0), c1, c2, c3, Times(X2, Y2), t) == Times(Num(s, x, xn), Num(s, y, yn)) < Pw(xn + yn)
  {
    hide Num, Val, Pw, P0, P1, P2;
    var X0, X1, X2 := P0(s, x, xn, t), P1(s, x, xn, t), P2(s, x, xn, t);
    var Y0, Y1, Y2 := P0(s, y, yn, t), P1(s, y, yn, t), P2(s, y, yn, t);
    PointIdentities(X0, X1, X2, Y0, Y1, Y2);
    PartsBound(s, x, xn, t);
    PartsBound(s, y, yn, t);
    K.ProductBound(X0, Y0, t, t);
    PartsSum(s, x, xn, t);
    PartsSum(s, y, yn, t);
    PwMultiples(t);
    PolyProduct(X0, X1, X2, Y0, Y1, Y2, Pw(t));
    NumBound(s, x, xn);
    NumBound(s, y, yn);
    K.ProductBound(Num(s, x, xn), Num(s, y, yn), xn, yn);
  }

  /** Both operands at 1: v holds x0 + x1 + x2 and v + e the same for y. */
  method EvalOnes(m: array<Limb>, v: nat, x: nat, xn: nat, y: nat, yn: nat, t: nat) returns (nx: nat, ny: nat)
    requires xn <= 3 * t + 2 && yn <= 3 * t + 2
    requires v + 2 * (t + 3) <= m.Length && x + xn <= m.Length && y + yn <= m.Length
    requires Apart(v, 2 * (t + 3), x, xn) && Apart(v, 2 * (t + 3), y, yn)
    modifies m
    ensures Same(old(m[..]), m[..], v, 2 * (t + 3)) && 1 <= nx <= t + 3 && 1 <= ny <= t + 3
    ensures Num(m[..], v, nx) == old(P0(m[..], x, xn, t) + P1(m[..], x, xn, t) + P2(m[..], x, xn, t))
    ensures Num(m[..], v + t + 3, ny) == old(P0(m[..], y, yn, t) + P1(m[..], y, yn, t) + P2(m[..], y, yn, t))
  {
    hide Num, P0, P1, P2;
    ghost var M := m[..];
    nx := EvalOne(m, v, t + 3, x, xn, t);
    ghost var S := m[..];
    PartsKeep(M, S, v, t + 3, y, yn, t);
    ny := EvalOne(m, v + t + 3, t + 3, y, yn, t);
    NumKeep(S, m[..], v + t + 3, t + 3, v, nx);
  }

  /** Both operands at 2. */
  method EvalTwos(m: array<Limb>, v: nat, x: nat, xn: nat, y: nat, yn: nat, t: nat) returns (nx: nat, ny: nat)
    requires xn <= 3 * t + 2 && yn <= 3 * t + 2
    requires v + 2 * (t + 3) <= m.Length && x + xn <= m.Length && y + yn <= m.Length
    requires Apart(v, 2 * (t + 3), x, xn) && Apart(v, 2 * (t + 3), y, yn)
    modifies m
    ensures Same(old(m[..]), m[..], v, 2 * (t + 3)) && 1 <= nx <= t + 3 && 1 <= ny <= t + 3
    ensures Num(m[..], v, nx) == old(P0(m[..], x, xn, t) + 2 * P1(m[..], x, xn, t) + 4 * P2(m[..], x, xn, t))
    ensures Num(m[..], v + t + 3, ny) == old(P0(m[..], y, yn, t) + 2 * P1(m[..], y, yn, t) + 4 * P2(m[..], y, yn, t))
  {
    hide Num, P0, P1, P2;
    ghost var M := m[..];
    nx := EvalTwo(m, v, t + 3, x, xn, t);
    ghost var S := m[..];
    PartsKeep(M, S, v, t + 3, y, yn, t);
    ny := EvalTwo(m, v + t + 3, t + 3, y, yn, t);
    NumKeep(S, m[..], v + t + 3, t + 3, v, nx);
  }

  /** Both operands at -1, as magnitudes with signs. */
  method EvalMinusOnes(m: array<Limb>, v: nat, x: nat, xn: nat, y: nat, yn: nat, t: nat)
      returns (nx: nat, ny: nat, sx: bool, sy: bool)
    requires xn <= 3 * t + 2 && yn <= 3 * t + 2
    requires v + 2 * (t + 3) <= m.Length && x + xn <= m.Length && y + yn <= m.Length
    requires Apart(v, 2 * (t + 3), x, xn) && Apart(v, 2 * (t + 3), y, yn)
    modifies m
    ensures Same(old(m[..]), m[..], v, 2 * (t + 3)) && 1 <= nx <= t + 3 && 1 <= ny <= t + 3
    ensures Signed(sx, Num(m[..], v, nx)) == old(P0(m[..], x, xn, t) as int - P1(m[..], x, xn, t) + P2(m[..], x, xn, t))
    ensures Signed(sy, Num(m[..], v + t + 3, ny))
      == old(P0(m[..], y, yn, t) as int - P1(m[..], y, yn, t) + P2(m[..], y, yn, t))
  {
    hide Num, P0, P1, P2;
    ghost var M := m[..];
    nx, sx := EvalMinusOne(m, v, t + 3, x, xn, t);
    ghost var S := m[..];
    PartsKeep(M, S, v, t + 3, y, yn, t);
    ny, sy := EvalMinusOne(m, v + t + 3, t + 3, y, yn, t);
    NumKeep(S, m[..], v + t + 3, t + 3, v, nx);
  }

  /** The signs of the two factors give the sign of the product. */
  lemma SignedProduct(sx: bool, sy: bool, a: nat, b: nat)
    ensures Times(a, b) >= 0 && Signed(sx != sy, Times(a, b)) == Times(Signed(sx, a), Signed(sy, b))
  {
  }

  /** The products at 1 and -1, of the evaluations at v .. v + 4e, into slots 1 and 2. */
  method OuterPair(m: array<Limb>, v: nat, e: nat, n1x: nat, n1y: nat, nmx: nat, nmy: nat, b: nat, end: nat)
    requires 1 <= n1x <= e && 1 <= n1y <= e && 1 <= nmx <= e && 1 <= nmy <= e && b == v + 6 * e
    requires b + 5 * (2 * e + 16) + ScratchSize(e) + 8 <= end <= m.Length && b + 9 * (2 * e + 16) <= end
    requires forall k :: b + (2 * e + 16) <= k < b + 5 * (2 * e + 16) ==> m[k] == 0
    modifies m
    ensures var p := 2 * e + 16;
            && Same(old(m[..]), m[..], b + p, end - b - p)
            && Slot(m[..], b, p, 1) == old(Times(Num(m[..], v, n1x), Num(m[..], v + e, n1y)))
            && Slot(m[..], b, p, 2) == old(Times(Num(m[..], v + 2 * e, nmx), Num(m[..], v + 3 * e, nmy)))
            && forall k :: b + 3 * p <= k < b + 5 * p ==> m[k] == 0
    decreases e, 2
  {
    hide Num, Val, Pw, Times, ScratchSize, Same;
    ghost var M := m[..];
    var p := 2 * e + 16;
    ScratchMono(K.Max(n1x, n1y), e);
    PointMul(m, b + p, p, v, n1x, v + e, n1y, b + 5 * p, end);
    ghost var S := m[..];
    NumKeep(M, S, b + p, end - b - p, v + 2 * e, nmx);
    NumKeep(M, S, b + p, end - b - p, v + 3 * e, nmy);
    ScratchMono(K.Max(nmx, nmy), e);
    PointMul(m, b + 2 * p, p, v + 2 * e, nmx, v + 3 * e, nmy, b + 5 * p, end);
    NumKeep(S, m[..], b + 2 * p, end - b - 2 * p, b + p, p);
    SameJoin(M, S, m[..], b + p, end - b - p, b + 2 * p, end - b - 2 * p, b + p, end - b - p);
  }

  /** The products at 1, -1 and 2, of the evaluations at v .. v + 6e, into slots 1, 2 and 3. */
  method MiddlePoints(m: array<Limb>, v: nat, e: nat, n1x: nat, n1y: nat, nmx: nat, nmy: nat, n2x: nat, n2y: nat,
      end: nat)
    requires 1 <= n1x <= e && 1 <= n1y <= e && 1 <= nmx <= e && 1 <= nmy <= e && 1 <= n2x <= e && 1 <= n2y <= e
    requires v + 6 * e + 5 * (2 * e + 16) + ScratchSize(e) + 8 <= end <= m.Length
    requires v + 6 * e + 9 * (2 * e + 16) <= end
    requires forall k :: v + 6 * e + (2 * e + 16) <= k < v + 6 * e + 5 * (2 * e + 16) ==> m[k] == 0
    modifies m
    ensures var b, p := v + 6 * e, 2 * e + 16;
            && Same(old(m[..]), m[..], b + p, end - b - p)
            && Slot(m[..], b, p, 1) == old(Times(Num(m[..], v, n1x), Num(m[..], v + e, n1y)))
            && Slot(m[..], b, p, 2) == old(Times(Num(m[..], v + 2 * e, nmx), Num(m[..], v + 3 * e, nmy)))
            && Slot(m[..], b, p, 3) == old(Times(Num(m[..], v + 4 * e, n2x), Num(m[..], v + 5 * e, n2y)))
            && forall k :: b + 4 * p <= k < b + 5 * p ==> m[k] == 0
    decreases e, 3
  {
    hide Num, Val, Pw, Times, ScratchSize, Same;
    ghost var M := m[..];
    var b, p := v + 6 * e, 2 * e + 16;
    OuterPair(m, v, e, n1x, n1y, nmx, nmy, b, end);
    ghost var T := m[..];
    NumKeep(M, T, b + p, end - b - p, v + 4 * e, n2x);
    NumKeep(M, T, b + p, end - b - p, v + 5 * e, n2y);
    ScratchMono(K.Max(n2x, n2y), e);
    PointMul(m, b + 3 * p, p, v + 4 * e, n2x, v + 5 * e, n2y, b + 5 * p, end);
    NumKeep(T, m[..], b + 3 * p, end - b - 3 * p, b + p, p);
    NumKeep(T, m[..], b + 3 * p, end - b - 3 * p, b + 2 * p, p);
    SameJoin(M, T, m[..], b + p, end - b - p, b + 3 * p, end - b - 3 * p, b + p, end - b - p);
  }

  /** All six evaluations, at s .. s + 6e in the source's order. */
  method EvalAll(m: array<Limb>, s: nat, x: nat, xn: nat, y: nat, yn: nat, t: nat)
      returns (n1x: nat, n1y: nat, nmx: nat, nmy: nat, n2x: nat, n2y: nat, sx: bool, sy: bool)
    requires xn <= 3 * t + 2 && yn <= 3 * t + 2
    requires s + 6 * (t + 3) <= m.Length && x + xn <= m.Length && y + yn <= m.Length
    requires Apart(s, 6 * (t + 3), x, xn) && Apart(s, 6 * (t + 3), y, yn)
    modifies m
    ensures Same(old(m[..]), m[..], s, 6 * (t + 3))
    ensures 1 <= n1x <= t + 3 && 1 <= n1y <= t + 3 && 1 <= nmx <= t + 3 && 1 <= nmy <= t + 3
    ensures 1 <= n2x <= t + 3 && 1 <= n2y <= t + 3
    ensures var e := t + 3;
            && Num(m[..], s, n1x) == old(P0(m[..], x, xn, t) + P1(m[..], x, xn, t) + P2(m[..], x, xn, t))
            && Num(m[..], s + e, n1y) == old(P0(m[..], y, yn, t) + P1(m[..], y, yn, t) + P2(m[..], y, yn, t))
            && Signed(sx, Num(m[..], s + 2 * e, nmx))
              == old(P0(m[..], x, xn, t) as int - P1(m[..], x, xn, t) + P2(m[..], x, xn, t))
            && Signed(sy, Num(m[..], s + 3 * e, nmy))
              == old(P0(m[..], y, yn, t) as int - P1(m[..], y, yn, t) + P2(m[..], y, yn, t))
            && Num(m[..], s + 4 * e, n2x)
              == old(P0(m[..], x, xn, t) + 2 * P1(m[..], x, xn, t) + 4 * P2(m[..], x, xn, t))
            && Num(m[..], s + 5 * e, n2y)
              == old(P0(m[..], y, yn, t) + 2 * P1(m[..], y, yn, t) + 4 * P2(m[..], y, yn, t))
  {
    hide Num, Val, Pw, Times, P0, P1, P2;
    ghost var M := m[..];
    var e := t + 3;
    n1x, n1y := EvalOnes(m, s, x, xn, y, yn, t);
    ghost var S := m[..];
    PartsKeep(M, S, s, 2 * e, x, xn, t);
    PartsKeep(M, S, s, 2 * e, y, yn, t);
    nmx, nmy, sx, sy := EvalMinusOnes(m, s + 2 * e, x, xn, y, yn, t);
    ghost var T := m[..];
    PartsKeep(S, T, s + 2 * e, 2 * e, x, xn, t);
    PartsKeep(S, T, s + 2 * e, 2 * e, y, yn, t);
    NumKeep(S, T, s + 2 * e, 2 * e, s, n1x);
    NumKeep(S, T, s + 2 * e, 2 * e, s + e, n1y);
    n2x, n2y := EvalTwos(m, s + 4 * e, x, xn, y, yn, t);
    NumKeep(T, m[..], s + 4 * e, 2 * e, s, n1x);
    NumKeep(T, m[..], s + 4 * e, 2 * e, s + e, n1y);
    NumKeep(T, m[..], s + 4 * e, 2 * e, s + 2 * e, nmx);
    NumKeep(T, m[..], s + 4 * e, 2 * e, s + 3 * e, nmy);
  }

  /** Evaluation and the four lower products; slot 4 is still clear. */
  method LowerPoints(m: array<Limb>, x: nat, xn: nat, y: nat, yn: nat, s: nat, end: nat, t: nat) returns (neg: bool)
    requires xn <= 3 * t + 2 && yn <= 3 * t + 2 && t + 3 < K.Max(xn, yn) && K.Min(xn, yn) >= TOOM3_THRESHOLD
    requires x + xn <= m.Length && y + yn <= m.Length
    requires s + 6 * (t + 3) + 5 * (2 * t + 22) + ScratchSize(t + 3) + 8 <= end <= m.Length
    requires s + 6 * (t + 3) + 9 * (2 * t + 22) <= end
    requires Apart(s, end - s, x, xn) && Apart(s, end - s, y, yn)
    modifies m
    ensures Same(old(m[..]), m[..], s, end - s)
    ensures var b, p := s + 6 * (t + 3), 2 * t + 22;
            var X0, X1, X2 := old(P0(m[..], x, xn, t)), old(P1(m[..], x, xn, t)), old(P2(m[..], x, xn, t));
            var Y0, Y1, Y2 := old(P0(m[..], y, yn, t)), old(P1(m[..], y, yn, t)), old(P2(m[..], y, yn, t));
            && Slot(m[..], b, p, 0) == Times(X0, Y0)
            && Slot(m[..], b, p, 1) == Times(X0 + X1 + X2, Y0 + Y1 + Y2)
            && Signed(neg, Slot(m[..], b, p, 2)) == Times(X0 as int - X1 + X2, Y0 as int - Y1 + Y2)
            && Slot(m[..], b, p, 3) == Times(X0 + 2 * X1 + 4 * X2, Y0 + 2 * Y1 + 4 * Y2)
            && forall k :: b + 4 * p <= k < b + 5 * p ==> m[k] == 0
    decreases K.Max(xn, yn), 0, 2
  {
    hide Num, Val, Pw, Times, P0, P1, P2, Slot, ScratchSize;
    ghost var M := m[..];
    var e, p := t + 3, 2 * t + 22;
    var b := s + 6 * e;
    var n1x, n1y, nmx, nmy, n2x, n2y, sx, sy := EvalAll(m, s, x, xn, y, yn, t);
    neg := sx != sy;
    ghost var S := m[..];
    Zero(m, b, 5 * p);
    PartsKeep(M, m[..], s, end - s, x, xn, t);
    PartsKeep(M, m[..], s, end - s, y, yn, t);
    LowPoint(m, b, p, x, xn, y, yn, t, end);
    ghost var T := m[..];
    EvalsKeep(S, T, s, e, b, end - b, n1x, n1y, nmx, nmy, n2x, n2y);
    MiddlePoints(m, s, e, n1x, n1y, nmx, nmy, n2x, n2y, end);
    SignedProduct(sx, sy, Num(T, s + 2 * e, nmx), Num(T, s + 3 * e, nmy));
    SlotBelow(T, m[..], b, p, 0, b + p, end - b - p);
  }

  /** Evaluation at the five points and the five pointwise products. */
  method Points(m: array<Limb>, x: nat, xn: nat, y: nat, yn: nat, s: nat, end: nat, t: nat) returns (neg: bool)
    requires K.Min(xn, yn) >= TOOM3_THRESHOLD && t == K.Max(xn, yn) / 3
    requires x + xn <= m.Length && y + yn <= m.Length && s + ScratchSize(K.Max(xn, yn)) <= end <= m.Length
    requires Apart(s, end - s, x, xn) && Apart(s, end - s, y, yn)
    modifies m
    ensures Same(old(m[..]), m[..], s, end - s)
    ensures s + 6 * (t + 3) + 9 * (2 * t + 22) <= end
    ensures var b, p := s + 6 * (t + 3), 2 * t + 22;
            var X0, X1, X2 := old(P0(m[..], x, xn, t)), old(P1(m[..], x, xn, t)), old(P2(m[..], x, xn, t));
            var Y0, Y1, Y2 := old(P0(m[..], y, yn, t)), old(P1(m[..], y, yn, t)), old(P2(m[..], y, yn, t));
            && Slot(m[..], b, p, 0) == Times(X0, Y0)
            && Slot(m[..], b, p, 1) == Times(X0 + X1 + X2, Y0 + Y1 + Y2)
            && Signed(neg, Slot(m[..], b, p, 2)) == Times(X0 as int - X1 + X2, Y0 as int - Y1 + Y2)
            && Slot(m[..], b, p, 3) == Times(X0 + 2 * X1 + 4 * X2, Y0 + 2 * Y1 + 4 * Y2)
            && Slot(m[..], b, p, 4) == Times(X2, Y2)
    decreases K.Max(xn, yn), 0, 3
  {
    hide Num, Val, Pw, Times, P0, P1, P2, Slot, ScratchSize;
    ghost var M := m[..];
    var b, p := s + 6 * (t + 3), 2 * t + 22;
    ScratchParts(K.Max(xn, yn));
    neg := LowerPoints(m, x, xn, y, yn, s, end, t);
    ghost var U := m[..];
    PartsKeep(M, U, s, end - s, x, xn, t);
    PartsKeep(M, U, s, end - s, y, yn, t);
    HighPoint(m, b, p, x, xn, y, yn, t, end);
    SlotBelow(U, m[..], b, p, 0, b + 4 * p, end - b - 4 * p);
    SlotBelow(U, m[..], b, p, 1, b + 4 * p, end - b - 4 * p);
    SlotBelow(U, m[..], b, p, 2, b + 4 * p, end - b - 4 * p);
    SlotBelow(U, m[..], b, p, 3, b + 4 * p, end - b - 4 * p);
  }

  lemma ScratchParts(n: nat)
    requires n >= TOOM3_THRESHOLD
    ensures ScratchSize(n) >= 6 * (n / 3 + 3) + 5 * (2 * (n / 3) + 22) + ScratchSize(n / 3 + 3) + 8
    ensures ScratchSize(n) >= 6 * (n / 3 + 3) + 9 * (2 * (n / 3) + 22) + 8
  {
  }

  lemma SlotBelow(s: seq<Limb>, u: seq<Limb>, b: nat, p: nat, i: nat, a: nat, an: nat)
    requires i < 9 && b + 9 * p <= |s| && Same(s, u, a, an) && 0 <= i * p && b + i * p + p <= a
    ensures Slot(s, b, p, i) == Slot(u, b, p, i)
  {
    NumKeep(s, u, a, an, b + i * p, p);
  }

  lemma EvalsKeep(s: seq<Limb>, u: seq<Limb>, v: nat, e: nat, a: nat, an: nat,
                  n1x: nat, n1y: nat, nmx: nat, nmy: nat, n2x: nat, n2y: nat)
    requires Same(s, u, a, an) && v + 6 * e <= a <= |s|
    requires n1x <= e && n1y <= e && nmx <= e && nmy <= e && n2x <= e && n2y <= e
    ensures Num(s, v, n1x) == Num(u, v, n1x) && Num(s, v + e, n1y) == Num(u, v + e, n1y)
    ensures Num(s, v + 2 * e, nmx) == Num(u, v + 2 * e, nmx) && Num(s, v + 3 * e, nmy) == Num(u, v + 3 * e, nmy)
    ensures Num(s, v + 4 * e, n2x) == Num(u, v + 4 * e, n2x) && Num(s, v + 5 * e, n2y) == Num(u, v + 5 * e, n2y)
  {
    hide Num;
    NumKeep(s, u, a, an, v, n1x);
    NumKeep(s, u, a, an, v + e, n1y);
    NumKeep(s, u, a, an, v + 2 * e, nmx);
    NumKeep(s, u, a, an, v + 3 * e, nmy);
    NumKeep(s, u, a, an, v + 4 * e, n2x);
    NumKeep(s, u, a, an, v + 5 * e, n2y);
  }

  /** w0 = x0 * y0 in slot 0. */
  method LowPoint(m: array<Limb>, b: nat, p: nat, x: nat, xn: nat, y: nat, yn: nat, t: nat, end: nat)
    requires xn <= 3 * t + 2 && yn <= 3 * t + 2 && t + 3 < K.Max(xn, yn) && K.Min(xn, yn) >= TOOM3_THRESHOLD
      && p == 2 * t + 22
    requires x + xn <= m.Length && y + yn <= m.Length
    requires b + 5 * p + ScratchSize(t + 3) + 8 <= end <= m.Length && b + 9 * p <= end
    requires Apart(b, end - b, x, xn) && Apart(b, end - b, y, yn)
    requires forall k :: b <= k < b + 5 * p ==> m[k] == 0
    modifies m
    ensures Slot(m[..], b, p, 0) == old(Times(P0(m[..], x, xn, t), P0(m[..], y, yn, t)))
    ensures forall k :: b + p <= k < b + 5 * p ==> m[k] == 0
    ensures Same(old(m[..]), m[..], b, end - b)
    decreases K.Max(xn, yn), 0, 1
  {
    hide Num, Val, Pw, Times, ScratchSize;
    ScratchMono(K.Max(K.Min(xn, t), K.Min(yn, t)), t + 3);
    PointMul(m, b, p, x, K.Min(xn, t), y, K.Min(yn, t), b + 5 * p, end);
  }

  lemma TimesZero(a: int)
    ensures Times(0, a) == 0 && Times(a, 0) == 0
  {
  }

  /** winf = x2 * y2 in slot 4. */
  method HighPoint(m: array<Limb>, b: nat, p: nat, x: nat, xn: nat, y: nat, yn: nat, t: nat, end: nat)
    requires xn <= 3 * t + 2 && yn <= 3 * t + 2 && t + 3 < K.Max(xn, yn) && K.Min(xn, yn) >= TOOM3_THRESHOLD
      && p == 2 * t + 22
    requires x + xn <= m.Length && y + yn <= m.Length
    requires b + 5 * p + ScratchSize(t + 3) + 8 <= end <= m.Length && b + 9 * p <= end
    requires Apart(b, end - b, x, xn) && Apart(b, end - b, y, yn)
    requires forall k :: b + 4 * p <= k < b + 5 * p ==> m[k] == 0
    modifies m
    ensures Slot(m[..], b, p, 4) == old(Times(P2(m[..], x, xn, t), P2(m[..], y, yn, t)))
    ensures Same(old(m[..]), m[..], b + 4 * p, end - b - 4 * p)
    decreases K.Max(xn, yn), 0, 1
  {
    hide Num, Val, Pw, ScratchSize, Times;
    NumTrim(m[..], b + 4 * p, 0, p);
    NumZero(m[..], b + 4 * p);
    TimesZero(P2(m[..], x, xn, t));
    TimesZero(P2(m[..], y, yn, t));
    if xn > 2 * t && yn > 2 * t {
      ScratchMono(K.Max(xn - 2 * t, yn - 2 * t), t + 3);
      PointMul(m, b + 4 * p, p, x + 2 * t, xn - 2 * t, y + 2 * t, yn - 2 * t, b + 5 * p, end);
    }
  }
}
