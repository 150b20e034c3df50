/**
  Toom-3 multiplication (lib/sp_bigint.c:1126-1631). The exact layout of the
  source's scratch buffer is kept: six evaluations, then nine slots of equal
  width (w0 w1 wm1 w2 winf t4 t5 t6 r2). Intermediates are two's complement
  modulo the slot width.
 */
module ToomSteps {
  import opened Limbs
  import opened Mpn

  /** Slot i of the block of p-limb slots at b. */
  ghost function Slot(s: seq<Limb>, b: nat, p: nat, i: nat): nat
    requires i < 9 && b + 9 * p <= |s|
  {
    SlotFits(i, p);
    Num(s, b + i * p, p)
  }

  lemma SlotFits(i: nat, p: nat)
    requires i < 9
    ensures 0 <= i * p && i * p + p <= 9 * p
  {
    Dist(i, 1, p);
    MulLe(i + 1, 9, p);
  }

  lemma SlotApart(i: nat, j: nat, p: nat)
    requires i < j
    ensures i * p + p <= j * p
  {
    Dist(i, 1, p);
    MulLe(i + 1, j, p);
  }

  /** Only slot r of the block, and nothing outside the block, has changed. */
  ghost predicate OnlySlot(s: seq<Limb>, t: seq<Limb>, b: nat, p: nat, r: nat)
    requires r < 9 && b + 9 * p <= |s|
  {
    && Same(s, t, b, 9 * p)
    && forall q: nat :: q < 9 && q != r ==> Slot(t, b, p, q) == Slot(s, b, p, q)
  }

  lemma OnlySlotIntro(s: seq<Limb>, t: seq<Limb>, b: nat, p: nat, r: nat)
    requires r < 9 && b + 9 * p <= |s| && b + r * p >= 0
    requires Same(s, t, b + r * p, p)
    ensures OnlySlot(s, t, b, p, r)
  {
    SlotFits(r, p);
    forall q: nat | q < 9 && q != r
      ensures Slot(t, b, p, q) == Slot(s, b, p, q)
    {
      SlotFits(q, p);
      if q < r { SlotApart(q, r, p); } else { SlotApart(r, q, p); }
      NumKeep(s, t, b + r * p, p, b + q * p, p);
    }
  }

  /** Two slots of the block are the same or disjoint. */
  lemma SlotsClear(b: nat, p: nat, r: nat, a: nat)
    requires r < 9 && a < 9
    ensures 0 <= r * p && 0 <= a * p
    ensures Forward(b + r * p, b + a * p, p)
    ensures r != a ==> Apart(b + r * p, p, b + a * p, p)
  {
    SlotFits(r, p);
    SlotFits(a, p);
    if r < a { SlotApart(r, a, p); }
    if a < r { SlotApart(a, r, p); }
  }

  method SlotSub(m: array<Limb>, b: nat, p: nat, r: nat, a: nat, c: nat) returns (ghost borrow: nat)
    requires r < 9 && a < 9 && c < 9 && b + 9 * p <= m.Length
    modifies m
    ensures borrow <= 1 && Slot(m[..], b, p, r) < Pw(p)
    ensures Slot(m[..], b, p, r) - borrow * Pw(p) == old(Slot(m[..], b, p, a) - Slot(m[..], b, p, c))
    ensures OnlySlot(old(m[..]), m[..], b, p, r)
  {
    hide Num, Val, Pw;
    SlotFits(r, p);
    SlotFits(a, p);
    SlotFits(c, p);
    SlotsClear(b, p, r, a);
    SlotsClear(b, p, r, c);
    var bo := Sub(m, b + r * p, b + a * p, p, b + c * p, p);
    borrow := bo;
    NumBound(m[..], b + r * p, p);
    OnlySlotIntro(old(m[..]), m[..], b, p, r);
  }

  method SlotAdd(m: array<Limb>, b: nat, p: nat, r: nat, a: nat, c: nat) returns (ghost carry: nat)
    requires r < 9 && a < 9 && c < 9 && b + 9 * p <= m.Length
    modifies m
    ensures carry <= 1 && Slot(m[..], b, p, r) < Pw(p)
    ensures Slot(m[..], b, p, r) + carry * Pw(p) == old(Slot(m[..], b, p, a) + Slot(m[..], b, p, c))
    ensures OnlySlot(old(m[..]), m[..], b, p, r)
  {
    hide Num, Val, Pw;
    SlotFits(r, p);
    SlotFits(a, p);
    SlotFits(c, p);
    SlotsClear(b, p, r, a);
    SlotsClear(b, p, r, c);
    var ca := AddN(m, b + r * p, b + a * p, b + c * p, p);
    carry := ca;
    NumBound(m[..], b + r * p, p);
    OnlySlotIntro(old(m[..]), m[..], b, p, r);
  }

  /** mpn_neg: two's complement of n limbs in place. */
  method Neg(m: array<Limb>, r: nat, n: nat)
    requires r + n <= m.Length
    modifies m
    ensures Num(m[..], r, n) == (if old(Num(m[..], r, n)) == 0 then 0 else Pw(n) - old(Num(m[..], r, n)))
    ensures Same(old(m[..]), m[..], r, n)
  {
    hide Num, Val;
    ghost var M := m[..];
    var carry := 1;
    NumZero(M, r);
    for i := 0 to n
      invariant 0 <= carry <= 1
      invariant Num(m[..], r, i) + carry * Pw(i) == Pw(i) - Num(M, r, i)
      invariant Same(M, m[..], r, i)
    {
      ghost var S, c := m[..], carry;
      var d: int := m[r + i];
      var sum: int := (BASE - 1 - d) + carry;
      m[r + i] := sum % BASE;
      carry := sum / BASE;
      NumPut(S, m[..], r, i);
      NumStep(M, r, i);
      CarryStep(Num(S, r, i), c, Pw(i), Pw(i) - Num(M, r, i), BASE - 1 - d, sum % BASE, carry);
      Dist(BASE - 1, d, Pw(i));
    }
    NumBound(m[..], r, n);
    NumBound(M, r, n);
  }

  /** t[i] takes s[i] divided by q and the remainder of the limb above. */
  ghost predicate Down(s: seq<Limb>, t: seq<Limb>, q: nat, c: nat)
    requires q > 0
  {
    |s| == |t| && forall i :: 0 <= i < |s| ==> t[i] == s[i] / q + Rem(s, i + 1, q) * c
  }

  ghost function Rem(s: seq<Limb>, i: nat, q: nat): nat
    requires q > 0
  {
    if i < |s| then s[i] % q else 0
  }

  lemma DownDigit(si: nat, ti: nat, next: nat, q: nat, c: nat, p: nat)
    requires q > 0 && q * c == BASE && ti == si / q + next * c
    ensures q * (ti * p) == si * p - (si % q) * p + next * (BASE * p)
  {
    var d := si / q;
    assert si == q * d + si % q;
    assert q * (next * c) == next * BASE;
    assert q * ti == si - si % q + next * BASE;
    assert q * (ti * p) == (q * ti) * p;
    Dist(si - si % q, next * BASE, p);
    Dist(si, si % q, p);
  }

  lemma {:induction false} DownVal(s: seq<Limb>, t: seq<Limb>, q: nat, c: nat, i: nat)
    requires q > 0 && q * c == BASE && Down(s, t, q, c) && i <= |s|
    ensures q * Val(t[..i]) + Rem(s, 0, q) == Val(s[..i]) + Rem(s, i, q) * Pw(i)
  {
    hide Val, Pw;
    if i == 0 {
      ValEmpty(s[..0]);
      ValEmpty(t[..0]);
      PwZero();
    } else {
      var k := i - 1;
      DownVal(s, t, q, c, k);
      ValTake(s, k);
      ValTake(t, k);
      PwStep(k);
      DownStep(Val(s[..k]), Val(t[..k]), Rem(s, 0, q), s[k], t[k], Rem(s, i, q), q, c, Pw(k));
    }
  }

  lemma DownStep(vs: int, vt: int, first: int, si: nat, ti: nat, next: nat, q: nat, c: nat, p: nat)
    requires q > 0 && q * c == BASE && ti == si / q + next * c
    requires q * vt + first == vs + (si % q) * p
    ensures q * (vt + ti * p) + first == (vs + si * p) + next * (BASE * p)
  {
    DownDigit(si, ti, next, q, c, p);
    DistL(q, vt, ti * p);
  }

  lemma PwZero()
    ensures Pw(0) == 1
  {
  }

  const HALF: int := 0x8000_0000

  /** mpn_rshift1: the walk is high to low, so rp may equal ap. */
  method RShift1(m: array<Limb>, r: nat, a: nat, n: nat) returns (out: Limb)
    requires r + n <= m.Length && a + n <= m.Length && (r == a || Apart(r, n, a, n))
    modifies m
    ensures out <= 1
    ensures 2 * Num(m[..], r, n) + out == old(Num(m[..], a, n))
    ensures Same(old(m[..]), m[..], r, n)
  {
    hide Num, Val, Pw;
    ghost var M := m[..];
    ghost var A := M[a..a + n];
    var carry: Limb := 0;
    var i := n;
    while i > 0
      invariant 0 <= i <= n
      invariant carry == Rem(A, i, 2)
      invariant Same(M, m[..], r + i, n - i)
      invariant forall k :: r + i <= k < r + n ==> m[k] == A[k - r] / 2 + Rem(A, k - r + 1, 2) * HALF
    {
      var d := m[a + i - 1];
      assert d == A[i - 1];
      m[r + i - 1] := d / 2 + carry * HALF;
      carry := d % 2;
      i := i - 1;
    }
    out := carry;
    HalfDone(M, m[..], a, r, n);
  }

  lemma HalfDone(M: seq<Limb>, T: seq<Limb>, a: nat, r: nat, n: nat)
    requires a + n <= |M| && r + n <= |T|
    requires forall k :: r <= k < r + n ==> T[k] == M[a..a + n][k - r] / 2 + Rem(M[a..a + n], k - r + 1, 2) * HALF
    ensures 2 * Num(T, r, n) + Rem(M[a..a + n], 0, 2) == Num(M, a, n)
  {
    hide Val, Pw, Rem;
    var A, D := M[a..a + n], T[r..r + n];
    forall k | 0 <= k < n ensures D[k] == A[k] / 2 + Rem(A, k + 1, 2) * HALF {
      assert D[k] == T[r + k];
    }
    assert A[..n] == A && D[..n] == D;
    DownVal(A, D, 2, HALF, n);
    RemEnd(A, 2);
  }

  lemma RemEnd(s: seq<Limb>, q: nat)
    requires q > 0
    ensures Rem(s, |s|, q) == 0
  {
  }

  /** The limb inverse of 3: q = a * INV3 mod BASE has 3q = a mod BASE. */
  const INV3: int := 0xAAAA_AAAB

  lemma Inv3(a: int)
    requires 0 <= a < BASE
    ensures 3 * ((a * INV3) % BASE) % BASE == a
    ensures 0 <= 3 * ((a * INV3) % BASE) / BASE <= 2
  {
    var q := (a * INV3) % BASE;
    var k := (a * INV3) / BASE;
    assert a * INV3 == k * BASE + q;
    assert 3 * q == a + (2 * a - 3 * k) * BASE;
    ModUnique(3 * q, 2 * a - 3 * k, a);
  }

  lemma ModUnique(x: int, k: int, r: int)
    requires x == r + k * BASE && 0 <= r < BASE
    ensures x % BASE == r && x / BASE == k
  {
  }

  lemma {:induction false} PwMod3(n: nat)
    ensures Pw(n) % 3 == 1
  {
    if n > 0 {
      PwMod3(n - 1);
    }
  }

  /** mpn_divexact_3: exact division by 3 through the limb inverse. */
  method DivExact3(m: array<Limb>, r: nat, n: nat)
    requires r + n <= m.Length && Num(m[..], r, n) % 3 == 0
    modifies m
    ensures 3 * Num(m[..], r, n) == old(Num(m[..], r, n))
    ensures Same(old(m[..]), m[..], r, n)
  {
    hide Num, Val;
    ghost var M := m[..];
    var borrow := 0;
    NumZero(M, r);
    for i := 0 to n
      invariant 0 <= borrow <= 3
      invariant 3 * Num(m[..], r, i) - borrow * Pw(i) == Num(M, r, i)
      invariant Same(M, m[..], r, i)
    {
      ghost var S, c := m[..], borrow;
      var old_a: int := m[r + i];
      var q;
      q, borrow := ThirdLimb(old_a, borrow);
      m[r + i] := q;
      NumPut(S, m[..], r, i);
      NumStep(M, r, i);
      Third(Num(S, r, i), q, c, borrow, old_a, Pw(i), Num(M, r, i));
    }
    NumBound(m[..], r, n);
    PwMod3(n);
    ExactThird(Num(m[..], r, n), borrow, Pw(n), Num(M, r, n));
  }

  /** One limb of the division: a third of a - c modulo the base, and the borrow it leaves. */
  method ThirdLimb(a: Limb, c: int) returns (q: Limb, borrow: int)
    requires 0 <= c <= 3
    ensures 3 * q == a - c + borrow * BASE && 0 <= borrow <= 3
  {
    var d := (a - c) % BASE;
    Inv3(d);
    q := (d * INV3) % BASE;
    var prod: int := 3 * q;
    borrow := prod / BASE;
    if prod % BASE > a {
      borrow := borrow + 1;
    }
  }

  lemma Third(x: int, q: int, c: int, hi: int, a: int, p: int, t: int)
    requires 3 * x - c * p == t && 3 * q == a - c + hi * BASE
    ensures 3 * (x + q * p) - hi * (BASE * p) == t + a * p
  {
    Assoc(3, q, p);
    Dist(a - c, hi * BASE, p);
    Dist(a, c, p);
    Assoc(hi, BASE, p);
  }

  lemma ExactThird(v: nat, b: nat, p: nat, t: nat)
    requires 3 * v - b * p == t && v < p && p % 3 == 1 && t % 3 == 0 && b <= 3
    ensures b == 0
  {
    assert b == 0 || b == 1 || b == 2 || b == 3;
  }

  lemma BorrowOf(diff: int)
    requires -16 * BASE <= diff < BASE
    ensures var hi := if diff < 0 then -(diff / BASE) else 0; 0 <= hi <= 16 && diff == diff % BASE - hi * BASE
  {
  }

  lemma PwStep(i: nat)
    ensures Pw(i + 1) == BASE * Pw(i)
  {
  }

  /** r = a - c * b for a small c (2 or 16), with the borrow in limbs. */
  method SubScaled(m: array<Limb>, r: nat, a: nat, b: nat, n: nat, c: nat) returns (borrow: nat)
    requires r + n <= m.Length && a + n <= m.Length && b + n <= m.Length && c <= 16
    requires Forward(r, a, n) && Forward(r, b, n)
    modifies m
    ensures Num(m[..], r, n) - borrow * Pw(n) == old(Num(m[..], a, n)) - c * old(Num(m[..], b, n))
    ensures Same(old(m[..]), m[..], r, n)
  {
    hide Num, Val, Pw;
    ghost var M := m[..];
    borrow := 0;
    NumZero(M, r);
    NumZero(M, a);
    NumZero(M, b);
    for i := 0 to n
      invariant borrow <= 16
      invariant Num(m[..], r, i) - borrow * Pw(i) == Num(M, a, i) - c * Num(M, b, i)
      invariant Same(M, m[..], r, i)
    {
      ghost var S, br := m[..], borrow;
      var ai: int, bi: int := m[a + i], m[b + i];
      ScaleBound(c, bi);
      var diff: int := ai - c * bi - borrow;
      m[r + i] := diff % BASE;
      borrow := if diff < 0 then -(diff / BASE) else 0;
      BorrowOf(diff);
      NumPut(S, m[..], r, i);
      NumStep(M, a, i);
      NumStep(M, b, i);
      PwStep(i);
      ScaledStep(Num(S, r, i), br, borrow, Pw(i), Num(M, a, i), Num(M, b, i), ai, bi, c, diff % BASE);
    }
  }

  lemma ScaleBound(c: nat, b: nat)
    requires c <= 16 && b < BASE
    ensures 0 <= c * b <= 16 * b
  {
    NonNeg(c, b);
    MulLe(c, 16, b);
  }

  lemma ScaledStep(x: int, br: int, hi: int, p: int, a: int, b: int, ai: int, bi: int, c: int, lo: int)
    requires x - br * p == a - c * b
    requires ai - c * bi - br == lo - hi * BASE
    ensures (x + lo * p) - hi * (BASE * p) == (a + ai * p) - c * (b + bi * p)
  {
    Dist(ai - c * bi - br, hi * BASE, p);
    Dist(ai - c * bi, br, p);
    Dist(ai, c * bi, p);
    Assoc(c, bi, p);
    Assoc(hi, BASE, p);
    DistL(c, b, bi * p);
    assert lo == ai - c * bi - br + hi * BASE;
  }

  method SlotNeg(m: array<Limb>, b: nat, p: nat, r: nat)
    requires r < 9 && b + 9 * p <= m.Length
    modifies m
    ensures Slot(m[..], b, p, r)
         == (if old(Slot(m[..], b, p, r)) == 0 then 0 else Pw(p) - old(Slot(m[..], b, p, r)))
    ensures OnlySlot(old(m[..]), m[..], b, p, r)
  {
    hide Num, Val, Pw;
    SlotFits(r, p);
    Neg(m, b + r * p, p);
    OnlySlotIntro(old(m[..]), m[..], b, p, r);
  }

  method SlotHalf(m: array<Limb>, b: nat, p: nat, r: nat, a: nat) returns (ghost out: nat)
    requires r < 9 && a < 9 && b + 9 * p <= m.Length
    modifies m
    ensures out <= 1 && 2 * Slot(m[..], b, p, r) + out == old(Slot(m[..], b, p, a))
    ensures OnlySlot(old(m[..]), m[..], b, p, r)
  {
    hide Num, Val, Pw;
    SlotFits(r, p);
    SlotFits(a, p);
    SlotsClear(b, p, r, a);
    var o := RShift1(m, b + r * p, b + a * p, p);
    out := o;
    OnlySlotIntro(old(m[..]), m[..], b, p, r);
  }

  method SlotSubScaled(m: array<Limb>, b: nat, p: nat, r: nat, a: nat, c: nat, k: nat) returns (ghost borrow: nat)
    requires r < 9 && a < 9 && c < 9 && b + 9 * p <= m.Length && k <= 16
    modifies m
    ensures Slot(m[..], b, p, r) < Pw(p)
    ensures Slot(m[..], b, p, r) - borrow * Pw(p) == old(Slot(m[..], b, p, a)) - k * old(Slot(m[..], b, p, c))
    ensures OnlySlot(old(m[..]), m[..], b, p, r)
  {
    hide Num, Val, Pw;
    SlotFits(r, p);
    SlotFits(a, p);
    SlotFits(c, p);
    SlotsClear(b, p, r, a);
    SlotsClear(b, p, r, c);
    var bo := SubScaled(m, b + r * p, b + a * p, b + c * p, p, k);
    borrow := bo;
    NumBound(m[..], b + r * p, p);
    OnlySlotIntro(old(m[..]), m[..], b, p, r);
  }

  method SlotThird(m: array<Limb>, b: nat, p: nat, r: nat)
    requires r < 9 && b + 9 * p <= m.Length && Slot(m[..], b, p, r) % 3 == 0
    modifies m
    ensures 3 * Slot(m[..], b, p, r) == old(Slot(m[..], b, p, r))
    ensures OnlySlot(old(m[..]), m[..], b, p, r)
  {
    hide Num, Val, Pw;
    SlotFits(r, p);
    DivExact3(m, b + r * p, p);
    OnlySlotIntro(old(m[..]), m[..], b, p, r);
  }

  /** Of two numbers below w, congruent modulo w, there is only one. */
  lemma Exact(v: nat, b: int, w: nat, t: int)
    requires v - b * w == t && v < w && 0 <= t < w
    ensures v == t
  {
    if b >= 1 { MulLe(1, b, w); assert false; }
    if b <= -1 { MulLe(b, -1, w); assert false; }
  }

  /** A magnitude with its sign flag. */
  ghost function Signed(neg: bool, v: int): int {
    if neg then -v else v
  }

  /** t1 = r1 + r2 + r3 and t2 = r2 - r1 - r3 modulo the slot width. */
  method FirstDifferences(m: array<Limb>, b: nat, p: nat, neg: bool, ghost c1: nat, ghost c2: nat, ghost c3: nat)
      returns (ghost wrap: nat)
    requires b + 9 * p <= m.Length
    requires var c0, c4 := Slot(m[..], b, p, 0), Slot(m[..], b, p, 4);
             && Slot(m[..], b, p, 1) == c0 + c1 + c2 + c3 + c4
             && Signed(neg, Slot(m[..], b, p, 2)) == c0 - c1 + c2 - c3 + c4
             && 4 * (c0 + c1 + c2 + c3 + c4) < Pw(p)
    modifies m
    ensures Slot(m[..], b, p, 1) == c1 + c2 + c3
    ensures wrap <= 1 && Slot(m[..], b, p, 2) == c2 - c1 - c3 + wrap * Pw(p)
    ensures forall q: nat :: q < 9 && q != 1 && q != 2 ==> Slot(m[..], b, p, q) == old(Slot(m[..], b, p, q))
    ensures Same(old(m[..]), m[..], b, 9 * p)
  {
    hide Slot, Pw;
    ghost var c0, c4, w := Slot(m[..], b, p, 0), Slot(m[..], b, p, 4), Pw(p);
    ghost var o := SlotSub(m, b, p, 1, 1, 0);
    Exact(Slot(m[..], b, p, 1), o, w, c1 + c2 + c3 + c4);
    o := SlotSub(m, b, p, 1, 1, 4);
    Exact(Slot(m[..], b, p, 1), o, w, c1 + c2 + c3);
    if neg {
      o := SlotAdd(m, b, p, 2, 2, 0);
      Exact(Slot(m[..], b, p, 2), -o, w, c1 + c3 - c2 - c4);
      o := SlotAdd(m, b, p, 2, 2, 4);
      Exact(Slot(m[..], b, p, 2), -o, w, c1 + c3 - c2);
      SlotNeg(m, b, p, 2);
      wrap := if c1 + c3 - c2 == 0 then 0 else 1;
    } else {
      ghost var o1 := SlotSub(m, b, p, 2, 2, 0);
      ghost var o2 := SlotSub(m, b, p, 2, 2, 4);
      wrap := o1 + o2;
      Dist(o1, o2, w);
      if wrap == 2 { assert false; }
    }
  }

  /**
    Interpolation: from the values at 0, 1, -1, 2 and infinity back to the five
    coefficients. Every halving and the division by three is exact.
   */
  method Interpolate(m: array<Limb>, b: nat, p: nat, neg: bool, ghost c1: nat, ghost c2: nat, ghost c3: nat)
    requires b + 9 * p <= m.Length
    requires var c0, c4 := Slot(m[..], b, p, 0), Slot(m[..], b, p, 4);
             && Slot(m[..], b, p, 1) == c0 + c1 + c2 + c3 + c4
             && Signed(neg, Slot(m[..], b, p, 2)) == c0 - c1 + c2 - c3 + c4
             && Slot(m[..], b, p, 3) == c0 + 2 * c1 + 4 * c2 + 8 * c3 + 16 * c4
             && 4 * (c0 + 2 * c1 + 4 * c2 + 8 * c3 + 16 * c4) < Pw(p)
    modifies m
    ensures Slot(m[..], b, p, 6) == c1 && Slot(m[..], b, p, 8) == c2 && Slot(m[..], b, p, 5) == c3
    ensures Slot(m[..], b, p, 0) == old(Slot(m[..], b, p, 0)) && Slot(m[..], b, p, 4) == old(Slot(m[..], b, p, 4))
    ensures Same(old(m[..]), m[..], b, 9 * p)
  {
    hide Slot, Pw;
    ghost var c0, c4, w := Slot(m[..], b, p, 0), Slot(m[..], b, p, 4), Pw(p);
    ghost var wrap := FirstDifferences(m, b, p, neg, c1, c2, c3);
    ghost var o := SlotAdd(m, b, p, 8, 1, 2);
    Dist(o, wrap, w);
    Exact(Slot(m[..], b, p, 8), wrap - o, w, 2 * c2);
    o := SlotHalf(m, b, p, 8, 8);
    FromTwo(m, b, p, c1, c2, c3);
    o := SlotSub(m, b, p, 6, 1, 2);
    Dist(o, wrap, w);
    Exact(Slot(m[..], b, p, 6), o - wrap, w, 2 * c1 + 2 * c3);
    o := SlotHalf(m, b, p, 6, 6);
    Coefficients(m, b, p, c1, c2, c3);
  }

  /** t4 = (w2 - r0 - 16 r4) / 2. */
  method FromTwo(m: array<Limb>, b: nat, p: nat, ghost c1: nat, ghost c2: nat, ghost c3: nat)
    requires b + 9 * p <= m.Length
    requires var t := Slot(m[..], b, p, 0) + 2 * c1 + 4 * c2 + 8 * c3 + 16 * Slot(m[..], b, p, 4);
      Slot(m[..], b, p, 3) == t < Pw(p)
    modifies m
    ensures Slot(m[..], b, p, 5) == c1 + 2 * c2 + 4 * c3
    ensures forall q: nat :: q < 9 && q != 3 && q != 5 ==> Slot(m[..], b, p, q) == old(Slot(m[..], b, p, q))
    ensures Same(old(m[..]), m[..], b, 9 * p)
  {
    hide Slot, Pw;
    ghost var c4, w := Slot(m[..], b, p, 4), Pw(p);
    ghost var o := SlotSub(m, b, p, 3, 3, 0);
    Exact(Slot(m[..], b, p, 3), o, w, 2 * c1 + 4 * c2 + 8 * c3 + 16 * c4);
    o := SlotSubScaled(m, b, p, 3, 3, 4, 16);
    Exact(Slot(m[..], b, p, 3), o, w, 2 * c1 + 4 * c2 + 8 * c3);
    o := SlotHalf(m, b, p, 5, 3);
  }

  /** t6 = t4 - 2 r2, r3 = (t6 - t5) / 3 and r1 = t5 - r3. */
  method Coefficients(m: array<Limb>, b: nat, p: nat, ghost c1: nat, ghost c2: nat, ghost c3: nat)
    requires b + 9 * p <= m.Length
    requires Slot(m[..], b, p, 5) == c1 + 2 * c2 + 4 * c3 && Slot(m[..], b, p, 8) == c2
    requires Slot(m[..], b, p, 6) == c1 + c3 && c1 + 2 * c2 + 4 * c3 < Pw(p)
    modifies m
    ensures Slot(m[..], b, p, 6) == c1 && Slot(m[..], b, p, 8) == c2 && Slot(m[..], b, p, 5) == c3
    ensures Slot(m[..], b, p, 0) == old(Slot(m[..], b, p, 0)) && Slot(m[..], b, p, 4) == old(Slot(m[..], b, p, 4))
    ensures Same(old(m[..]), m[..], b, 9 * p)
  {
    hide Slot, Pw;
    ghost var w := Pw(p);
    ghost var o := SlotSubScaled(m, b, p, 7, 5, 8, 2);
    Exact(Slot(m[..], b, p, 7), o, w, c1 + 4 * c3);
    o := SlotSub(m, b, p, 5, 7, 6);
    Exact(Slot(m[..], b, p, 5), o, w, 3 * c3);
    SlotThird(m, b, p, 5);
    o := SlotSub(m, b, p, 6, 6, 5);
    Exact(Slot(m[..], b, p, 6), o, w, c1);
  }
}
