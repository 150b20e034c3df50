/** Knuth Algorithm D (lib/sp_bigint.c:2797-2949) and single-limb division. */
module Knuth {
  import opened Limbs
  import opened Mpn
  import opened ToomSteps

  function MinInt(a: int, b: int): int {
    if a < b then a else b
  }

  /** The top limbs u and x3 divided by y1 and y2, capped at the largest digit. */
  ghost function Target(u: nat, x3: nat, y1: nat, y2: nat): (r: int)
    requires y1 > 0
    ensures r >= 0
  {
    MinInt(BASE - 1, Quot(u * BASE + x3, y1 * BASE + y2))
  }

  /** The quotient of naturals. */
  function Quot(a: nat, b: nat): (r: nat)
    requires b > 0
    ensures r * b <= a < (r + 1) * b && r == a / b
  {
    assert a == b * (a / b) + a % b;
    Dist(a / b, 1, b);
    a / b
  }

  /**
    The digit estimate after refinement is the quotient of the top three limbs
    by the top two, capped at the largest digit.
   */
  method EstimateDigit(xt: Limb, xn: Limb, x3: Limb, y1: Limb, y2: Limb) returns (qhat: Limb)
    requires 2 * y1 >= BASE && xt <= y1
    ensures qhat == Target(xt * BASE + xn, x3, y1, y2)
  {
    hide Target;
    var u: nat := xt * BASE + xn;
    var q: nat, rhat: nat := u / y1, u % y1;
    assert u == y1 * q + rhat;
    EstimateStart(u, y1, y2, x3, q);
    var left, right := q * y2, rhat * BASE + x3;
    DoubleLimb(u, xt, xn, y1, y2, q);
    while q >= BASE || left > right
      invariant rhat < BASE && u == y1 * q + rhat && q >= Target(u, x3, y1, y2)
      invariant left == q * y2 && right == rhat * BASE + x3
      invariant 0 <= left < BASE * BASE && right < BASE * BASE
      decreases q
    {
      EstimateStep(u, y1, y2, x3, q, rhat);
      q := q - 1;
      rhat := rhat + y1;
      Dist(q, 1, y1);
      if rhat >= BASE {
        EstimateBreak(xt, xn, y1, y2, x3, q, rhat);
        qhat := q;
        return;
      }
      left := left - y2;
      right := rhat * BASE + x3;
      Dist(q, 1, y2);
      NonNeg(q, y2);
    }
    EstimateDone(u, y1, y2, x3, q, rhat);
    qhat := q;
  }

  /** The first estimate is at most B + 1, so its product with a limb fits the double limb, just. */
  lemma DoubleLimb(u: nat, xt: nat, xn: nat, y1: nat, y2: nat, q: nat)
    requires u == xt * BASE + xn && xt <= y1 && xn < BASE && 2 * y1 >= BASE && y2 < BASE && u == y1 * q + u % y1
    ensures 0 <= q * y2 < BASE * BASE
  {
    if q >= BASE + 2 {
      MulLe(BASE + 2, q, y1);
      assert false;
    }
    NonNeg(q, y2);
    MulLe(q, BASE + 1, y2);
  }

  /** x / d is the largest k with k * d <= x. */
  lemma DivLower(x: nat, d: nat, k: nat)
    requires d > 0 && k * d <= x
    ensures k <= x / d
  {
    assert x == d * (x / d) + x % d;
    if k > x / d {
      MulLe(x / d + 1, k, d);
      Dist(x / d, 1, d);
      assert false;
    }
  }

  lemma DivUpper(x: nat, d: nat, k: nat)
    requires d > 0 && x < k * d
    ensures x / d < k
  {
    assert x == d * (x / d) + x % d;
    if x / d >= k {
      MulLe(k, x / d, d);
      assert false;
    }
  }

  lemma EstimateStart(u: nat, y1: nat, y2: nat, x3: nat, q: nat)
    requires y1 > 0 && q == u / y1 && x3 < BASE
    ensures q >= Target(u, x3, y1, y2)
  {
    var t, v := u * BASE + x3, y1 * BASE + y2;
    assert u == y1 * q + u % y1;
    assert u < (q + 1) * y1 by { Dist(q, 1, y1); }
    MulLe(u + 1, (q + 1) * y1, BASE);
    assert (q + 1) * y1 * BASE == (q + 1) * (y1 * BASE);
    NonNeg(q + 1, y2);
    DistL(q + 1, y1 * BASE, y2);
    DivUpper(t, v, q + 1);
  }

  /** q * v <= t exactly when the two-limb test passes. */
  lemma EstimateTest(u: int, y1: int, y2: int, x3: int, q: int, rhat: int)
    requires u == y1 * q + rhat
    ensures q * (y1 * BASE + y2) <= u * BASE + x3 <==> q * y2 <= rhat * BASE + x3
  {
    DistL(q, y1 * BASE, y2);
    assert q * (y1 * BASE) == (y1 * q) * BASE;
  }

  lemma EstimateStep(u: nat, y1: nat, y2: nat, x3: nat, q: nat, rhat: nat)
    requires q >= BASE || q * y2 > rhat * BASE + x3
    requires u == y1 * q + rhat && y1 > 0
    requires q >= Target(u, x3, y1, y2)
    ensures q >= 1 && q - 1 >= Target(u, x3, y1, y2)
  {
    if q < BASE {
      EstimateTest(u, y1, y2, x3, q, rhat);
      DivUpper(u * BASE + x3, y1 * BASE + y2, q);
    }
  }

  lemma EstimateDone(u: nat, y1: nat, y2: nat, x3: nat, q: nat, rhat: nat)
    requires y1 > 0 && u == y1 * q + rhat && q < BASE && q * y2 <= rhat * BASE + x3
    requires q >= Target(u, x3, y1, y2)
    ensures q == Target(u, x3, y1, y2)
  {
    EstimateTest(u, y1, y2, x3, q, rhat);
    DivLower(u * BASE + x3, y1 * BASE + y2, q);
  }

  /** Once rhat has two limbs the test cannot fail any more, and q is a digit. */
  lemma EstimateBreak(xt: nat, xn: nat, y1: nat, y2: nat, x3: nat, q: nat, rhat: nat)
    requires xt <= y1 && xn < BASE && 0 < y1 && y2 < BASE && rhat >= BASE
    requires xt * BASE + xn == y1 * q + rhat
    requires q >= Target(xt * BASE + xn, x3, y1, y2)
    ensures q < BASE && q == Target(xt * BASE + xn, x3, y1, y2)
  {
    if q >= BASE {
      MulLe(BASE, q, y1);
      assert false;
    }
    NonNeg(q, y2);
    MulLe(q, BASE, y2);
    EstimateDone(xt * BASE + xn, y1, y2, x3, q, rhat);
  }

  /** From three limbs to all: the estimate is the true digit or one more. */
  lemma EstimateClose(W: nat, Y: nat, t: nat, v: nat, p: nat)
    requires p > 0 && v >= BASE && Y > 0
    requires t * p <= W < (t + 1) * p && v * p <= Y < (v + 1) * p && W < BASE * Y
    ensures W / Y <= MinInt(BASE - 1, t / v) <= W / Y + 1
  {
    var d := W / Y;
    assert W == Y * d + W % Y;
    DivUpper(W, Y, BASE);
    NotTooSmall(W, Y, t, v, p, d);
    var k := MinInt(BASE - 1, t / v);
    if k >= d + 2 {
      TooFar(W, Y, t, v, p, k);
      MulLe(d + 1, k - 1, Y);
      Dist(d, 1, Y);
      assert false;
    }
  }

  lemma NotTooSmall(W: nat, Y: nat, t: nat, v: nat, p: nat, d: nat)
    requires p > 0 && v > 0 && d * Y <= W < (t + 1) * p && v * p <= Y
    ensures d <= t / v
  {
    MulLe(v * p, Y, d);
    assert d * (v * p) == (d * v) * p;
    if d * v > t {
      MulLe(t + 1, d * v, p);
      assert false;
    }
    DivLower(t, v, d);
  }

  lemma TooFar(W: nat, Y: nat, t: nat, v: nat, p: nat, k: nat)
    requires p > 0 && v >= BASE > k && 1 <= k <= t / v && Y > 0
    requires t * p <= W && Y < (v + 1) * p
    ensures (k - 1) * Y <= W
  {
    assert t == v * (t / v) + t % v;
    MulLe(k, t / v, v);
    assert k * v <= t;
    MulLe(k * v, t, p);
    MulLe(Y, (v + 1) * p, k - 1);
    assert (k - 1) * ((v + 1) * p) == ((k - 1) * (v + 1)) * p;
    assert (k - 1) * (v + 1) == k * v + k - v - 1;
    MulLe((k - 1) * (v + 1), k * v, p);
  }

  // ----- one digit -----

  /** x[j..] -= qhat * y over |y| limbs; the signed borrow is returned. */
  method MulSub(x: array<Limb>, j: nat, y: seq<Limb>, qhat: Limb) returns (borrow: int)
    requires j + |y| <= x.Length
    modifies x
    ensures Num(x[..], j, |y|) + borrow * Pw(|y|) == old(Num(x[..], j, |y|)) - qhat * Val(y)
    ensures Same(old(x[..]), x[..], j, |y|)
  {
    hide Num, Val;
    ghost var X := x[..];
    borrow := 0;
    NumZero(X, j);
    ValEmpty(y[..0]);
    for i := 0 to |y|
      invariant Num(x[..], j, i) + borrow * Pw(i) == Num(X, j, i) - qhat * Val(y[..i])
      invariant Same(X, x[..], j, i)
    {
      ghost var S, c := x[..], borrow;
      var product: int := qhat * y[i];
      var xi: int := x[j + i];
      var diff: int := xi - product % BASE + borrow;
      x[j + i] := diff % BASE;
      borrow := diff / BASE - product / BASE;
      NumPut(S, x[..], j, i);
      NumStep(X, j, i);
      ValTake(y, i);
      CarryStep(Num(S, j, i), c, Pw(i), Num(X, j, i) - qhat * Val(y[..i]), xi - product, diff % BASE, borrow);
      Dist(xi, product, Pw(i));
      DistL(qhat, Val(y[..i]), y[i] * Pw(i));
      Assoc(qhat, y[i], Pw(i));
    }
    assert y[..|y|] == y;
  }

  /** x[j..] += y over |y| limbs. */
  method AddBack(x: array<Limb>, j: nat, y: seq<Limb>) returns (carry: int)
    requires j + |y| <= x.Length
    modifies x
    ensures 0 <= carry <= 1
    ensures Num(x[..], j, |y|) + carry * Pw(|y|) == old(Num(x[..], j, |y|)) + Val(y)
    ensures Same(old(x[..]), x[..], j, |y|)
  {
    hide Num, Val;
    ghost var X := x[..];
    carry := 0;
    NumZero(X, j);
    ValEmpty(y[..0]);
    for i := 0 to |y|
      invariant 0 <= carry <= 1
      invariant Num(x[..], j, i) + carry * Pw(i) == Num(X, j, i) + Val(y[..i])
      invariant Same(X, x[..], j, i)
    {
      ghost var S, c := x[..], carry;
      var xi: int, yi: int := x[j + i], y[i];
      var sum: int := carry + (xi + yi);
      x[j + i] := sum % BASE;
      carry := sum / BASE;
      NumPut(S, x[..], j, i);
      NumStep(X, j, i);
      ValTake(y, i);
      CarryStep(Num(S, j, i), c, Pw(i), Num(X, j, i) + Val(y[..i]), xi + yi, sum % BASE, carry);
      Dist(xi, yi, Pw(i));
    }
    assert y[..|y|] == y;
  }

  /** The window a digit works on: |y| limbs, and one more when there is one. */
  function Width(xd: nat, j: nat, yd: nat): nat
    requires j + yd <= xd
  {
    if j + yd < xd then yd + 1 else yd
  }

  /** Subtraction of qhat * y from the window, with its final borrow. */
  method SubtractDigit(x: array<Limb>, j: nat, y: seq<Limb>, qhat: Limb) returns (borrow: int)
    requires j + |y| <= x.Length
    modifies x
    ensures var w := Width(x.Length, j, |y|);
            && Num(x[..], j, w) + borrow * Pw(w) == old(Num(x[..], j, w)) - qhat * Val(y)
            && Same(old(x[..]), x[..], j, w)
  {
    hide Num, Val;
    ghost var X := x[..];
    var yd := |y|;
    borrow := MulSub(x, j, y, qhat);
    if j + yd < x.Length {
      ghost var S, c := x[..], borrow;
      var top: int := x[j + yd];
      borrow := borrow + top;
      x[j + yd] := borrow % BASE;
      borrow := borrow / BASE;
      NumPut(S, x[..], j, yd);
      NumStep(X, j, yd);
      CarryStep(Num(S, j, yd), c, Pw(yd), Num(X, j, yd) - qhat * Val(y), top, (c + top) % BASE, borrow);
    }
  }

  /** Add-back of y into the window; the carry out of the top is dropped. */
  method RestoreDigit(x: array<Limb>, j: nat, y: seq<Limb>) returns (ghost lost: int)
    requires j + |y| <= x.Length
    modifies x
    ensures var w := Width(x.Length, j, |y|);
            && Num(x[..], j, w) + lost * Pw(w) == old(Num(x[..], j, w)) + Val(y)
            && Same(old(x[..]), x[..], j, w)
  {
    hide Num, Val;
    ghost var X := x[..];
    var yd := |y|;
    var carry := AddBack(x, j, y);
    lost := carry;
    if j + yd < x.Length {
      ghost var S := x[..];
      NumStep(X, j, yd);
      var top: int := x[j + yd];
      if carry > 0 {
        x[j + yd] := (top + carry) % BASE;
      }
      lost := (top + carry) / BASE;
      NumPut(S, x[..], j, yd);
      CarryStep(Num(S, j, yd), carry, Pw(yd), Num(X, j, yd) + Val(y), top, (top + carry) % BASE, lost);
    }
  }

  /** A number of at least two limbs, by its two top limbs. */
  lemma TopTwo(s: seq<Limb>, o: nat, n: nat)
    requires n >= 2 && o + n <= |s|
    ensures Num(s, o, n) == Num(s, o, n - 2) + (s[o + n - 1] * BASE + s[o + n - 2]) * Pw(n - 2)
    ensures Num(s, o, n - 2) < Pw(n - 2) && Pw(n) == BASE * BASE * Pw(n - 2)
  {
    hide Num, Val;
    NumStep(s, o, n - 1);
    NumStep(s, o, n - 2);
    NumBound(s, o, n - 2);
    assert Pw(n - 1) == BASE * Pw(n - 2);
    Dist(s[o + n - 1] * BASE, s[o + n - 2], Pw(n - 2));
    Assoc(s[o + n - 1], BASE, Pw(n - 2));
  }

  /** The window as an estimate problem: t and v are its top three and y's top two limbs. */
  lemma TopLimbs(X: seq<Limb>, j: nat, y: seq<Limb>, xt: Limb)
    requires |y| >= 2 && j + |y| <= |X| && 2 * y[|y| - 1] >= BASE
    requires xt == (if j + |y| < |X| then X[j + |y|] else 0)
    requires Num(X, j, Width(|X|, j, |y|)) < BASE * Val(y)
    ensures var yd, p := |y|, Pw(|y| - 2);
            var t: int, v: int := (xt * BASE + X[j + yd - 1]) * BASE + X[j + yd - 2], y[yd - 1] * BASE + y[yd - 2];
            var W, Y := Num(X, j, Width(|X|, j, yd)), Val(y);
            && xt <= y[yd - 1] && v >= BASE && Y > 0
            && t * p <= W < (t + 1) * p && v * p <= Y < (v + 1) * p
            && Y <= Pw(Width(|X|, j, yd))
  {
    hide Num, Val, Pw;
    var yd, p := |y|, Pw(|y| - 2);
    assert y[0..yd] == y;
    NumAll(y);
    TopTwo(y, 0, yd);
    TopTwo(X, j, yd);
    if j + yd < |X| {
      NumStep(X, j, yd);
    }
    ValBound(y);
    PwMono(yd, Width(|X|, j, yd));
    var low, b: int := Num(X, j, yd - 2), X[j + yd - 1] * BASE + X[j + yd - 2];
    var v: int := y[yd - 1] * BASE + y[yd - 2];
    ThreeLimbs(xt, b, low, p);
    Dist(v, 1, p);
    TopSmall(xt, X[j + yd - 1], X[j + yd - 2], y[yd - 1], y[yd - 2], p, Num(X, j, Width(|X|, j, yd)), Val(y));
    MulLe(1, v, p);
  }

  lemma ThreeLimbs(xt: int, b: int, low: int, p: int)
    requires 0 <= low < p
    ensures low + b * p + xt * (BASE * BASE * p) == (xt * BASE * BASE + b) * p + low
    ensures (xt * BASE * BASE + b) * p <= low + b * p + xt * (BASE * BASE * p) < (xt * BASE * BASE + b + 1) * p
  {
    assert xt * (BASE * BASE * p) == (xt * BASE * BASE) * p;
    Dist(xt * BASE * BASE, b, p);
    Dist(xt * BASE * BASE + b, 1, p);
  }

  lemma TopSmall(xt: nat, xn: nat, x3: nat, y1: nat, y2: nat, p: nat, W: nat, Y: nat)
    requires p > 0 && y2 < BASE && W < BASE * Y
    requires ((xt * BASE + xn) * BASE + x3) * p <= W && Y < (y1 * BASE + y2 + 1) * p
    ensures xt <= y1
  {
    if xt > y1 {
      MulLe((y1 + 1) * BASE * BASE, (xt * BASE + xn) * BASE + x3, p);
      MulLe(y1 * BASE + y2 + 1, y1 * BASE + BASE, p);
      Assoc(BASE, y1 * BASE + BASE, p);
      assert false;
    }
  }

  lemma DigitFacts(W: int, Y: int, q: int)
    requires W >= 0 && q >= 0 && Y > 0 && W / Y <= q <= W / Y + 1
    ensures -Y <= W - q * Y < Y
    ensures W - q * Y < 0 ==> q > 0 && 0 <= W - (q - 1) * Y < Y
  {
    var d := W / Y;
    assert W == Y * d + W % Y;
    assert q == d || q == d + 1;
    Dist(d, 1, Y);
  }

  lemma BorrowSign(b: int, p: int, v: int, t: int)
    requires 0 <= v && v + b * p == t && v < p && -p <= t < p
    ensures t >= 0 ==> b == 0
    ensures t < 0 ==> b == -1
  {
    if b >= 1 { MulLe(1, b, p); assert false; }
    if b <= -2 { MulLe(b, -2, p); assert false; }
  }

  /** The refined estimate is the true digit of the window or one too large. */
  method Estimate(x: array<Limb>, j: nat, y: seq<Limb>) returns (qhat: Limb)
    requires |y| >= 2 && j + |y| <= x.Length && 2 * y[|y| - 1] >= BASE
    requires Num(x[..], j, Width(x.Length, j, |y|)) < BASE * Val(y)
    ensures Val(y) > 0
    ensures var d := Num(x[..], j, Width(x.Length, j, |y|)) / Val(y); d <= qhat <= d + 1
    ensures Val(y) <= Pw(Width(x.Length, j, |y|))
  {
    hide Num, Val, Pw;
    var yd := |y|;
    var xt: Limb := if j + yd < x.Length then x[j + yd] else 0;
    TopLimbs(x[..], j, y, xt);
    qhat := EstimateDigit(xt, x[j + yd - 1], x[j + yd - 2], y[yd - 1], y[yd - 2]);
    EstimateClose(Num(x[..], j, Width(x.Length, j, yd)), Val(y),
                  (xt * BASE + x[j + yd - 1]) * BASE + x[j + yd - 2], y[yd - 1] * BASE + y[yd - 2], Pw(yd - 2));
  }

  lemma Restored(W: int, Y: int, qhat: int, v: int, r: nat, lost: int, p: nat)
    requires v - p == W - qhat * Y && r + lost * p == v + Y && r < p && 0 <= W - (qhat - 1) * Y < Y <= p
    ensures W == (qhat - 1) * Y + r
  {
    Dist(qhat, 1, Y);
    Dist(lost, 1, p);
    Exact(r, 1 - lost, p, W - (qhat - 1) * Y);
  }

  /** One step of Algorithm D: the window becomes its remainder by y. */
  method DivideDigit(x: array<Limb>, j: nat, y: seq<Limb>) returns (q: Limb)
    requires |y| >= 2 && j + |y| <= x.Length && 2 * y[|y| - 1] >= BASE
    requires Num(x[..], j, Width(x.Length, j, |y|)) < BASE * Val(y)
    modifies x
    ensures var w := Width(x.Length, j, |y|);
            && old(Num(x[..], j, w)) == q * Val(y) + Num(x[..], j, w)
            && Num(x[..], j, w) < Val(y)
            && Same(old(x[..]), x[..], j, w)
  {
    hide Num, Val, Pw;
    ghost var X := x[..];
    var w := Width(x.Length, j, |y|);
    ghost var W, Y := Num(X, j, w), Val(y);
    var qhat := Estimate(x, j, y);
    DigitFacts(W, Y, qhat);
    q := qhat;
    if qhat > 0 {
      var borrow := SubtractDigit(x, j, y, qhat);
      NumBound(x[..], j, w);
      BorrowSign(borrow, Pw(w), Num(x[..], j, w), W - qhat * Y);
      if borrow < 0 {
        q := qhat - 1;
        ghost var v := Num(x[..], j, w);
        ghost var lost := RestoreDigit(x, j, y);
        NumBound(x[..], j, w);
        Restored(W, Y, qhat, v, Num(x[..], j, w), lost, Pw(w));
      }
    }
  }

  // ----- all digits -----

  /** The part of x from limb i on. */
  ghost function Above(s: seq<Limb>, i: nat): nat
    requires i <= |s|
  {
    Num(s, i, |s| - i)
  }

  /** The next window is below BASE * y, and nothing is set above it. */
  lemma NextWindow(X: seq<Limb>, j: nat, y: seq<Limb>)
    requires j + |y| <= |X| && |y| > 0 && Above(X, j + 1) < Val(y)
    ensures var w := Width(|X|, j, |y|);
            && Num(X, j, w) == Above(X, j) < BASE * Val(y)
            && forall k :: j + w <= k < |X| ==> X[k] == 0
  {
    hide Num, Val, Pw;
    var n, w := |X|, Width(|X|, j, |y|);
    ValBound(y);
    SmallTail(X, j + 1, n - j - 1, |y|);
    NumTrim(X, j, w, n - j);
    NumSplit(X, j, 1, n - j - 1);
    NumStep(X, j, 0);
    NumZero(X, j);
    PwFirst();
  }

  lemma PwFirst()
    ensures Pw(0) == 1 && Pw(1) == BASE
  {
  }

  lemma SmallTail(s: seq<Limb>, o: nat, len: nat, n: nat)
    requires o + len <= |s| && Num(s, o, len) < Pw(n)
    ensures forall k :: o + n <= k < o + len ==> s[k] == 0
  {
    if n <= len {
      ValSmall(s[o..o + len], n);
      assert forall k :: o + n <= k < o + len ==> s[k] == s[o..o + len][k - o];
    }
  }

  lemma DigitSum(x0: int, X: int, Qhi: int, Y: int, pj: int, below: int, W: int, q: int, R: int)
    requires x0 == X + Qhi * (BASE * pj) * Y && X == below + W * pj && W == q * Y + R
    ensures x0 == (below + R * pj) + (q + BASE * Qhi) * pj * Y
  {
    Dist(q * Y, R, pj);
    Dist(q, BASE * Qhi, pj);
    Dist(q * pj, BASE * Qhi * pj, Y);
    assert (q * Y) * pj == q * pj * Y;
    assert BASE * Qhi * pj == Qhi * (BASE * pj);
  }

  /** Every digit from the top down: x is left holding the remainder. */
  method DivideAll(x: array<Limb>, y: seq<Limb>) returns (q: seq<Limb>)
    requires |y| >= 2 && |y| <= x.Length && 2 * y[|y| - 1] >= BASE
    modifies x
    ensures |q| == x.Length - |y| + 1
    ensures old(Val(x[..])) == Val(q) * Val(y) + Num(x[..], 0, x.Length)
    ensures Num(x[..], 0, x.Length) < Val(y)
  {
    hide Num, Val, Pw, Above;
    var xd, yd := x.Length, |y|;
    ghost var x0, Y := Val(x[..]), Val(y);
    q := [];
    ValEmpty(q);
    FirstWindow(x[..], y);
    NumAll(x[..]);
    var j := xd - yd + 1;
    while j > 0
      invariant 0 <= j <= xd - yd + 1 && |q| == xd - yd + 1 - j
      invariant x0 == Num(x[..], 0, xd) + Val(q) * Pw(j) * Y
      invariant Above(x[..], j) < Y
    {
      j := j - 1;
      ghost var S := x[..];
      NextWindow(S, j, y);
      var d := DivideDigit(x, j, y);
      PwNext(j);
      ValCons(d, q);
      WindowDone(S, x[..], j, Width(xd, j, yd));
      DigitSum(x0, Num(S, 0, xd), Val(q), Y, Pw(j), Num(S, 0, j), Above(S, j), d, Above(x[..], j));
      q := [d] + q;
    }
    AboveZero(x[..]);
    PwFirst();
  }

  lemma PwNext(j: nat)
    ensures Pw(j + 1) == BASE * Pw(j)
  {
  }

  lemma AboveZero(s: seq<Limb>)
    ensures Above(s, 0) == Num(s, 0, |s|)
  {
  }

  lemma FirstWindow(s: seq<Limb>, y: seq<Limb>)
    requires 2 <= |y| <= |s| && 2 * y[|y| - 1] >= BASE
    ensures Above(s, |s| - |y| + 1) < Val(y)
  {
    hide Val, Pw;
    NumBound(s, |s| - |y| + 1, |y| - 1);
    ValTop(y);
  }

  /** After a digit: the limbs below j are untouched, those above the window still zero. */
  lemma WindowDone(S: seq<Limb>, T: seq<Limb>, j: nat, w: nat)
    requires Same(S, T, j, w) && j + w <= |S| && forall k :: j + w <= k < |S| ==> S[k] == 0
    ensures Num(S, 0, |S|) == Num(S, 0, j) + Above(S, j) * Pw(j)
    ensures Num(T, 0, |T|) == Num(S, 0, j) + Above(T, j) * Pw(j)
    ensures Above(T, j) == Num(T, j, w)
  {
    hide Num, Val, Pw;
    NumSplit(S, 0, j, |S| - j);
    NumSplit(T, 0, j, |S| - j);
    NumKeep(S, T, j, w, 0, j);
    NumTrim(T, j, w, |S| - j);
  }
}
