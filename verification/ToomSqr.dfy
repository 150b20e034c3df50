/** Toom-3 squaring (lib/sp_bigint.c:1633-1862): one operand, three evaluations, five squares. */
module ToomSqr {
  import opened Limbs
  import opened Mpn
  import opened Mul
  import opened ToomSteps
  import opened T = Toom3

  /** toom3_sqr_scratch_size. */
  function SqrScratch(n: nat): nat {
    if n < TOOM3_THRESHOLD then 0
    else
      var e := n / 3 + 3;
      var p := 2 * e + 16;
      (3 * e + 5 * p) + K.Max(SqrScratch(e), 4 * p) + 8
  }

  lemma {:induction false} SqrScratchMono(a: nat, b: nat)
    requires a <= b
    ensures SqrScratch(a) <= SqrScratch(b)
  {
    if a >= TOOM3_THRESHOLD {
      SqrScratchMono(a / 3 + 3, b / 3 + 3);
    }
  }

  lemma SqrScratchParts(n: nat)
    requires n >= TOOM3_THRESHOLD
    ensures SqrScratch(n) >= 3 * (n / 3 + 3) + 5 * (2 * (n / 3) + 22) + SqrScratch(n / 3 + 3) + 8
    ensures SqrScratch(n) >= 3 * (n / 3 + 3) + 9 * (2 * (n / 3) + 22) + 8
  {
  }

  /** One pointwise square into the slot at z; zeros are left past the slot. */
  method PointSqr(m: array<Limb>, z: nat, p: nat, a: nat, an: nat, rs: nat, end: nat)
    requires a + an <= m.Length
    requires 2 * an + 16 <= p && z + p <= rs && (z + p < rs ==> z + p + 8 <= rs)
    requires rs + SqrScratch(an) + 8 <= end <= m.Length
    requires Apart(z, end - z, a, an)
    requires forall k :: z <= k < rs ==> m[k] == 0
    modifies m
    ensures Num(m[..], z, p) == old(Num(m[..], a, an) * Num(m[..], a, an))
    ensures forall k :: z + p <= k < rs ==> m[k] == 0
    ensures Same(old(m[..]), m[..], z, end - z)
    decreases an, 1
  {
    hide Num, Val, Pw, SqrScratch;
    ghost var M := m[..];
    NumBound(M, a, an);
    K.ProductBound(Num(M, a, an), Num(M, a, an), an, an);
    SqrLimbs(m, z, a, an, rs, end);
    SmallAbove(m[..], z, ResLen(an, an), an + an);
    SamePrefix(m[..], z, an + an, ResLen(an, an), p);
  }

  /** mpz_sqr_toom3. */
  method SqrLimbs(m: array<Limb>, r: nat, x: nat, n: nat, s: nat, end: nat)
    requires r + ResLen(n, n) <= m.Length && x + n <= m.Length && s + SqrScratch(n) <= end <= m.Length
    requires Apart(r, ResLen(n, n), x, n) && Apart(s, end - s, x, n)
    requires end <= r || (r + 2 * n <= s && r + ResLen(n, n) <= s + 8)
    modifies m
    ensures Num(m[..], r, ResLen(n, n)) == old(Num(m[..], x, n) * Num(m[..], x, n))
    ensures K.Same2(old(m[..]), m[..], r, ResLen(n, n), s, end - s)
    decreases n, 0
  {
    hide Num, Val, Pw;
    if n < TOOM3_THRESHOLD {
      SqrBasicLimbs(m, r, x, n);
      return;
    }
    SqrThirds(m, r, x, n, s, end);
  }

  method SqrThirds(m: array<Limb>, r: nat, x: nat, n: nat, s: nat, end: nat)
    requires n >= TOOM3_THRESHOLD
    requires r + 2 * n + 24 <= m.Length && x + n <= m.Length && s + SqrScratch(n) <= end <= m.Length
    requires Apart(s, end - s, x, n)
    requires end <= r || r + 2 * n + 24 <= s + 8
    modifies m
    ensures Num(m[..], r, 2 * n + 24) == old(Num(m[..], x, n) * Num(m[..], x, n))
    ensures K.Same2(old(m[..]), m[..], r, 2 * n + 24, s, end - s)
    decreases n, 0, 4
  {
    hide Num, Val, Pw, P0, P1, P2, Slot, SqrScratch;
    ghost var M := m[..];
    var t := n / 3;
    SqrPoints(m, x, n, s, end, t);
    Recover(m, r, M, x, n, x, n, s + 3 * (t + 3), t, false);
  }

  /** The three evaluations at s, s + e and s + 2e. */
  method EvalOperand(m: array<Limb>, s: nat, x: nat, n: nat, t: nat) returns (n1: nat, nm: nat, n2: nat, neg: bool)
    requires n <= 3 * t + 2 && s + 3 * (t + 3) <= m.Length && x + n <= m.Length && Apart(s, 3 * (t + 3), x, n)
    modifies m
    ensures Same(old(m[..]), m[..], s, 3 * (t + 3))
    ensures 1 <= n1 <= t + 3 && 1 <= nm <= t + 3 && 1 <= n2 <= t + 3
    ensures Num(m[..], s, n1) == old(P0(m[..], x, n, t) + P1(m[..], x, n, t) + P2(m[..], x, n, t))
    ensures Signed(neg, Num(m[..], s + (t + 3), nm))
      == old(P0(m[..], x, n, t) as int - P1(m[..], x, n, t) + P2(m[..], x, n, t))
    ensures Num(m[..], s + 2 * (t + 3), n2) == old(P0(m[..], x, n, t) + 2 * P1(m[..], x, n, t) + 4 * P2(m[..], x, n, t))
  {
    hide Num, Val, Pw, P0, P1, P2;
    ghost var M := m[..];
    var e := t + 3;
    n1 := EvalOne(m, s, e, x, n, t);
    ghost var S := m[..];
    PartsKeep(M, S, s, e, x, n, t);
    nm, neg := EvalMinusOne(m, s + e, e, x, n, t);
    ghost var U := m[..];
    PartsKeep(S, U, s + e, e, x, n, t);
    NumKeep(S, U, s + e, e, s, n1);
    n2 := EvalTwo(m, s + 2 * e, e, x, n, t);
    NumKeep(U, m[..], s + 2 * e, e, s, n1);
    NumKeep(U, m[..], s + 2 * e, e, s + e, nm);
  }

  /** The squares at 1, -1 and 2 into slots 1, 2 and 3. */
  method MiddleSquares(m: array<Limb>, v: nat, e: nat, n1: nat, nm: nat, n2: nat, end: nat)
    requires 1 <= n1 <= e && 1 <= nm <= e && 1 <= n2 <= e
    requires v + 3 * e + 5 * (2 * e + 16) + SqrScratch(e) + 8 <= end <= m.Length
    requires v + 3 * e + 9 * (2 * e + 16) <= end
    requires forall k :: v + 3 * e + (2 * e + 16) <= k < v + 3 * e + 5 * (2 * e + 16) ==> m[k] == 0
    modifies m
    ensures var b, p := v + 3 * e, 2 * e + 16;
            && Same(old(m[..]), m[..], b + p, end - b - p)
            && Slot(m[..], b, p, 1) == old(Num(m[..], v, n1) * Num(m[..], v, n1))
            && Slot(m[..], b, p, 2) == old(Num(m[..], v + e, nm) * Num(m[..], v + e, nm))
            && Slot(m[..], b, p, 3) == old(Num(m[..], v + 2 * e, n2) * Num(m[..], v + 2 * e, n2))
            && forall k :: b + 4 * p <= k < b + 5 * p ==> m[k] == 0
    decreases e, 2
  {
    hide Num, Val, Pw, SqrScratch;
    ghost var M := m[..];
    var b, p := v + 3 * e, 2 * e + 16;
    var rs := b + 5 * p;
    SqrScratchMono(n1, e);
    SqrScratchMono(nm, e);
    SqrScratchMono(n2, e);
    PointSqr(m, b + p, p, v, n1, rs, end);
    ghost var S := m[..];
    NumKeep(M, S, b + p, end - b - p, v + e, nm);
    NumKeep(M, S, b + p, end - b - p, v + 2 * e, n2);
    PointSqr(m, b + 2 * p, p, v + e, nm, rs, end);
    ghost var U := m[..];
    NumKeep(S, U, b + 2 * p, end - b - 2 * p, v + 2 * e, n2);
    NumKeep(S, U, b + 2 * p, end - b - 2 * p, b + p, p);
    PointSqr(m, b + 3 * p, p, v + 2 * e, n2, rs, end);
    NumKeep(U, m[..], b + 3 * p, end - b - 3 * p, b + p, p);
    NumKeep(U, m[..], b + 3 * p, end - b - 3 * p, b + 2 * p, p);
  }

  /** Evaluation and the four lower squares. */
  method LowerSquares(m: array<Limb>, x: nat, n: nat, s: nat, end: nat, t: nat)
    requires n >= TOOM3_THRESHOLD && t == n / 3 && x + n <= m.Length
    requires s + 3 * (t + 3) + 5 * (2 * t + 22) + SqrScratch(t + 3) + 8 <= end <= m.Length
    requires s + 3 * (t + 3) + 9 * (2 * t + 22) <= end
    requires Apart(s, end - s, x, n)
    modifies m
    ensures Same(old(m[..]), m[..], s, end - s)
    ensures var b, p := s + 3 * (t + 3), 2 * t + 22;
            var X0, X1, X2 := old(P0(m[..], x, n, t)), old(P1(m[..], x, n, t)), old(P2(m[..], x, n, t));
            && Slot(m[..], b, p, 0) == X0 * X0
            && Slot(m[..], b, p, 1) == (X0 + X1 + X2) * (X0 + X1 + X2)
            && Slot(m[..], b, p, 2) == (X0 as int - X1 + X2) * (X0 as int - X1 + X2)
            && Slot(m[..], b, p, 3) == (X0 + 2 * X1 + 4 * X2) * (X0 + 2 * X1 + 4 * X2)
            && forall k :: b + 4 * p <= k < b + 5 * p ==> m[k] == 0
    decreases n, 0, 2
  {
    hide Num, Val, Pw, P0, P1, P2, Slot, SqrScratch;
    ghost var M := m[..];
    var e, p := t + 3, 2 * t + 22;
    var b := s + 3 * e;
    var n1, nm, n2, neg := EvalOperand(m, s, x, n, t);
    ghost var S := m[..];
    Zero(m, b, 5 * p);
    PartsKeep(M, m[..], s, end - s, x, n, t);
    LowSquare(m, b, p, x, n, t, end);
    ghost var U := m[..];
    NumKeep(S, U, b, end - b, s, n1);
    NumKeep(S, U, b, end - b, s + e, nm);
    NumKeep(S, U, b, end - b, s + 2 * e, n2);
    MiddleSquares(m, s, e, n1, nm, n2, end);
    SignedProduct(neg, neg, Num(U, s + e, nm), Num(U, s + e, nm));
    SlotBelow(U, m[..], b, p, 0, b + p, end - b - p);
  }

  method LowSquare(m: array<Limb>, b: nat, p: nat, x: nat, n: nat, t: nat, end: nat)
    requires n >= TOOM3_THRESHOLD && t == n / 3 && p == 2 * t + 22 && x + n <= m.Length
    requires b + 5 * p + SqrScratch(t + 3) + 8 <= end <= m.Length && b + 9 * p <= end
    requires Apart(b, end - b, x, n)
    requires forall k :: b <= k < b + 5 * p ==> m[k] == 0
    modifies m
    ensures Slot(m[..], b, p, 0) == old(P0(m[..], x, n, t) * P0(m[..], x, n, t))
    ensures forall k :: b + p <= k < b + 5 * p ==> m[k] == 0
    ensures Same(old(m[..]), m[..], b, end - b)
    decreases n, 0, 1
  {
    hide Num, Val, Pw, SqrScratch;
    SqrScratchMono(K.Min(n, t), t + 3);
    PointSqr(m, b, p, x, K.Min(n, t), b + 5 * p, end);
  }

  /** The five squares. */
  method SqrPoints(m: array<Limb>, x: nat, n: nat, s: nat, end: nat, t: nat)
    requires n >= TOOM3_THRESHOLD && t == n / 3
    requires x + n <= m.Length && s + SqrScratch(n) <= end <= m.Length && Apart(s, end - s, x, n)
    modifies m
    ensures Same(old(m[..]), m[..], s, end - s)
    ensures s + 3 * (t + 3) + 9 * (2 * t + 22) <= end
    ensures var b, p := s + 3 * (t + 3), 2 * t + 22;
            var X0, X1, X2 := old(P0(m[..], x, n, t)), old(P1(m[..], x, n, t)), old(P2(m[..], x, n, t));
            && Slot(m[..], b, p, 0) == X0 * X0
            && Slot(m[..], b, p, 1) == (X0 + X1 + X2) * (X0 + X1 + X2)
            && Slot(m[..], b, p, 2) == (X0 as int - X1 + X2) * (X0 as int - X1 + X2)
            && Slot(m[..], b, p, 3) == (X0 + 2 * X1 + 4 * X2) * (X0 + 2 * X1 + 4 * X2)
            && Slot(m[..], b, p, 4) == X2 * X2
    decreases n, 0, 3
  {
    hide Num, Val, Pw, P0, P1, P2, Slot, SqrScratch;
    ghost var M := m[..];
    var b, p := s + 3 * (t + 3), 2 * t + 22;
    SqrScratchParts(n);
    LowerSquares(m, x, n, s, end, t);
    ghost var U := m[..];
    PartsKeep(M, U, s, end - s, x, n, t);
    HighSquare(m, b, p, x, n, t, end);
    SlotBelow(U, m[..], b, p, 0, b + 4 * p, end - b - 4 * p);
    SlotBelow(U, m[..], b, p, 1, b + 4 * p, end - b - 4 * p);
    SlotBelow(U, m[..], b, p, 2, b + 4 * p, end - b - 4 * p);
    SlotBelow(U, m[..], b, p, 3, b + 4 * p, end - b - 4 * p);
  }

  method HighSquare(m: array<Limb>, b: nat, p: nat, x: nat, n: nat, t: nat, end: nat)
    requires n >= TOOM3_THRESHOLD && t == n / 3 && p == 2 * t + 22 && x + n <= m.Length
    requires b + 5 * p + SqrScratch(t + 3) + 8 <= end <= m.Length && b + 9 * p <= end
    requires Apart(b, end - b, x, n)
    requires forall k :: b + 4 * p <= k < b + 5 * p ==> m[k] == 0
    modifies m
    ensures Slot(m[..], b, p, 4) == old(P2(m[..], x, n, t) * P2(m[..], x, n, t))
    ensures Same(old(m[..]), m[..], b + 4 * p, end - b - 4 * p)
    decreases n, 0, 1
  {
    hide Num, Val, Pw, SqrScratch;
    SqrScratchMono(n - 2 * t, t + 3);
    PointSqr(m, b + 4 * p, p, x + 2 * t, n - 2 * t, b + 5 * p, end);
  }
}
