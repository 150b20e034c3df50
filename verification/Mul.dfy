/** Products on raw limbs (lib/sp_bigint.c:826-1112): schoolbook, squaring and Karatsuba. */
module Mul {
  import opened Limbs
  import opened Mpn

  /**
    mpz_mul_basic_limbs. The limb above the row just added is still zero, so
    the row's carry is stored without any propagation.
   */
  method MulBasicLimbs(m: array<Limb>, r: nat, x: nat, xn: nat, y: nat, yn: nat)
    requires r + xn + yn <= m.Length && x + xn <= m.Length && y + yn <= m.Length
    requires Apart(r, xn + yn, x, xn) && Apart(r, xn + yn, y, yn)
    modifies m
    ensures Num(m[..], r, xn + yn) == old(Num(m[..], x, xn) * Num(m[..], y, yn))
    ensures Same(old(m[..]), m[..], r, xn + yn)
  {
    hide Num, Val;
    ghost var M := m[..];
    Zero(m, r, xn + yn);
    NumZero(M, x);
    NumTrim(m[..], r, 0, yn);
    NumZero(m[..], r);
    for i := 0 to xn
      invariant Same(M, m[..], r, xn + yn)
      invariant forall k :: r + i + yn <= k < r + xn + yn ==> m[k] == 0
      invariant Num(m[..], r, i + yn) == Num(M, x, i) * Num(M, y, yn)
    {
      ghost var S := m[..];
      NumStep(M, x, i);
      NumStep(S, r, i + yn);
      NumKeep(M, S, r, xn + yn, y, yn);
      if m[x + i] != 0 {
        var carry := AddMul1(m, r + i, y, yn, m[x + i]);
        ghost var T := m[..];
        var top: int := m[r + i + yn];
        m[r + i + yn] := (top + carry) % BASE;
        RowStep(M, S, T, m[..], r, x, y, yn, i, carry);
      } else {
        assert Num(M, x, i + 1) == Num(M, x, i);
      }
    }
  }

  lemma RowStep(M: seq<Limb>, S: seq<Limb>, T: seq<Limb>, U: seq<Limb>, r: nat, x: nat, y: nat, yn: nat, i: nat,
      carry: Limb)
    requires |M| == |S| == |T| == |U| && r + i + yn < |M| && x + i < |M| && y + yn <= |M|
    requires Num(S, r, i + yn) == Num(M, x, i) * Num(M, y, yn)
    requires Same(S, T, r + i, yn) && Same(T, U, r + i + yn, 1) && U[r + i + yn] == carry
    requires Num(T, r + i, yn) + carry * Pw(yn) == Num(S, r + i, yn) + Num(M, y, yn) * M[x + i]
    ensures Num(U, r, i + 1 + yn) == Num(M, x, i + 1) * Num(M, y, yn)
  {
    hide Num, Val, Pw;
    NumWindow(S, T, r, i + yn, i, yn);
    NumPut(T, U, r, i + yn);
    NumStep(M, x, i);
    PwAdd(yn, i);
    var v := Num(M, y, yn);
    RowSum(Num(T, r + i, yn) - Num(S, r + i, yn), carry, Pw(yn), Pw(i), Num(M, x, i), v, M[x + i]);
  }

  lemma RowSum(d: int, c: int, py: int, pi: int, a: int, v: int, xi: int)
    requires d + c * py == v * xi
    ensures a * v + d * pi + c * (py * pi) == (a + xi * pi) * v
  {
    Dist(d, c * py, pi);
    assert (c * py) * pi == c * (py * pi);
    assert (v * xi) * pi == (xi * pi) * v;
  }

  /** b * d added at limb off of the numeral of len limbs at r; lost is the carry past its end. */
  method AddMulAt(m: array<Limb>, r: nat, len: nat, off: nat, b: nat, bn: nat, d: Limb) returns (ghost lost: nat)
    requires off + bn <= len && r + len <= m.Length && b + bn <= m.Length && Apart(r, len, b, bn)
    modifies m
    ensures Num(m[..], r, len) + lost * Pw(len) == old(Num(m[..], r, len)) + old(Num(m[..], b, bn) * d) * Pw(off)
    ensures Same(old(m[..]), m[..], r, len)
  {
    hide Num, Val, Pw;
    ghost var S := m[..];
    var carry := AddMul1(m, r + off, b, bn, d);
    ghost var T := m[..];
    var c := Propagate(m, r + off + bn, r + len, carry);
    lost := c;
    AddAtSum(S, T, m[..], r, len, off, bn, Num(S, b, bn) * d, carry, c);
  }

  // ----- squaring -----

  /** d squared, k limbs up. */
  ghost function SqTerm(d: nat, k: nat): (v: nat)
  {
    Nat3(d, d, Pw(k));
    d * d * Pw(k)
  }

  lemma Nat3(a: nat, b: nat, c: nat)
    ensures a * b * c >= 0
  {
    NonNeg(a, b);
    NonNeg(a * b, c);
  }

  /** The sum of the squares of the limbs, each at twice its position. */
  ghost function Diag(s: seq<Limb>, o: nat, n: nat): (d: nat)
    requires o + n <= |s|
  {
    if n == 0 then 0
    else
      Diag(s, o, n - 1) + SqTerm(s[o + n - 1], 2 * (n - 1))
  }

  lemma SquareSum(d: int, b: int)
    ensures (d + b) * (d + b) == d * d + 2 * (d * b) + b * b
  {
  }

  lemma SqrScaled(x: int, d: int, t: int, p: int)
    requires x == d + BASE * t
    ensures x * x * p == d * d * p + 2 * (t * d * (BASE * p)) + t * t * (BASE * (BASE * p))
  {
    var b := BASE * t;
    SquareSum(d, b);
    Dist(d * d + 2 * (d * b), b * b, p);
    Dist(d * d, 2 * (d * b), p);
    assert d * b * p == t * d * (BASE * p);
    assert b * b * p == t * t * (BASE * (BASE * p));
  }

  lemma SqrStep(x: nat, d: nat, t: nat, k: nat)
    requires x == d + BASE * t
    ensures SqTerm(x, k) == SqTerm(d, k) + 2 * (t * d * Pw(k + 1)) + SqTerm(t, k + 2)
  {
    SqrScaled(x, d, t, Pw(k));
  }

  /** The suffix of x from limb i on: its low limb and the rest. */
  lemma SuffixStep(s: seq<Limb>, o: nat, n: nat, i: nat)
    requires o + n <= |s| && i < n
    ensures Num(s, o + i, n - i) == s[o + i] + BASE * Num(s, o + i + 1, n - i - 1)
  {
    NumSplit(s, o + i, 1, n - i - 1);
    NumStep(s, o + i, 0);
    assert Pw(1) == BASE * Pw(0);
  }

  /** Row i of step 1: x[i] times the limbs above it, added at limb 2i + 1. */
  method AddRow(m: array<Limb>, r: nat, x: nat, n: nat, i: nat) returns (ghost lost: nat)
    requires r + 2 * n <= m.Length && x + n <= m.Length && Apart(r, 2 * n, x, n) && i < n
    modifies m
    ensures Num(m[..], r, 2 * n) + lost * Pw(2 * n)
         == old(Num(m[..], r, 2 * n)) + old(Num(m[..], x + i + 1, n - i - 1) * m[x + i]) * Pw(2 * i + 1)
    ensures Same(old(m[..]), m[..], r, 2 * n)
  {
    hide Num, Val;
    ghost var S := m[..];
    lost := 0;
    var xi := m[x + i];
    ghost var v := Num(S, x + i + 1, n - i - 1) * xi;
    if xi != 0 && i + 1 < n {
      lost := AddMulAt(m, r, 2 * n, 2 * i + 1, x + i + 1, n - i - 1, xi);
    } else {
      if i + 1 == n { NumZero(S, x + n); }
      assert v == 0;
    }
  }

  /** Step 1: the products of distinct limbs, each once. */
  method OffDiagonal(m: array<Limb>, r: nat, x: nat, n: nat)
    requires r + 2 * n <= m.Length && x + n <= m.Length && Apart(r, 2 * n, x, n)
    requires Num(m[..], r, 2 * n) == 0
    modifies m
    ensures 2 * Num(m[..], r, 2 * n) + old(Diag(m[..], x, n)) == old(Num(m[..], x, n) * Num(m[..], x, n))
    ensures Same(old(m[..]), m[..], r, 2 * n)
  {
    hide Num, Val, SqTerm;
    ghost var M := m[..];
    ghost var X := Num(M, x, n);
    NumBound(M, x, n);
    SquareBound(X, n);
    SqTermZero(X);
    for i := 0 to n
      invariant Same(M, m[..], r, 2 * n)
      invariant 2 * Num(m[..], r, 2 * n) + Diag(M, x, i) + SqTerm(Num(M, x + i, n - i), 2 * i) == X * X
    {
      ghost var S := m[..];
      SuffixStep(M, x, n, i);
      ghost var t := Num(M, x + i + 1, n - i - 1);
      SqrStep(Num(M, x + i, n - i), M[x + i], t, 2 * i);
      NumKeep(M, S, r, 2 * n, x + i + 1, n - i - 1);
      ghost var lost := AddRow(m, r, x, n, i);
      LostZero(lost, Pw(2 * n), Num(m[..], r, 2 * n), X * X);
    }
    NumZero(M, x + n);
    SqTermZero(0);
  }

  lemma SqTermZero(x: nat)
    ensures SqTerm(x, 0) == x * x
    ensures forall k: nat :: SqTerm(0, k) == 0
  {
  }

  /** Step 2: result = 2 * result. */
  method Double(m: array<Limb>, r: nat, n: nat) returns (carry: Limb)
    requires r + n <= m.Length
    modifies m
    ensures Num(m[..], r, n) + carry * Pw(n) == 2 * old(Num(m[..], r, n))
    ensures Same(old(m[..]), m[..], r, n)
  {
    hide Num, Val;
    ghost var M := m[..];
    carry := 0;
    NumZero(M, r);
    for i := 0 to n
      invariant carry <= 1
      invariant Num(m[..], r, i) + carry * Pw(i) == 2 * Num(M, r, i)
      invariant Same(M, m[..], r, i)
    {
      ghost var S, c := m[..], carry;
      var d: int := m[r + i];
      var val: int := 2 * d + carry;
      m[r + i] := val % BASE;
      carry := val / BASE;
      NumPut(S, m[..], r, i);
      NumStep(M, r, i);
      CarryStep(Num(S, r, i), c, Pw(i), 2 * Num(M, r, i), 2 * d, val % BASE, carry);
      Assoc(2, d, Pw(i));
    }
  }

  lemma SquareHigh(x: int)
    requires 0 <= x < BASE
    ensures 0 <= x * x <= (BASE - 1) * (BASE - 1)
    ensures 0 <= x * x / BASE <= BASE - 2
  {
    NonNeg(x, x);
    MulLe(x, BASE - 1, x);
    MulLe(x, BASE - 1, BASE - 1);
  }

  /** Step 3: one square added at limb k of the numeral of n limbs at r. */
  method AddSquare(m: array<Limb>, r: nat, n: nat, k: nat, xi: Limb) returns (ghost lost: nat)
    requires r + n <= m.Length && k < n
    modifies m
    ensures Num(m[..], r, n) + lost * Pw(n) == old(Num(m[..], r, n)) + xi * xi * Pw(k)
    ensures Same(old(m[..]), m[..], r, n)
  {
    hide Num, Val;
    ghost var M := m[..];
    SquareHigh(xi);
    var sq: int := xi * xi;
    var low: int := m[r + k];
    var acc: int := low + sq % BASE;
    m[r + k] := acc % BASE;
    ghost var S := m[..];
    acc := acc / BASE + sq / BASE;
    NumZero(M, r + k);
    NumZero(S, r + k);
    NumStep(M, r + k, 0);
    NumStep(S, r + k, 0);
    ghost var c := acc;
    assert Pw(1) == BASE;
    var c' := Propagate(m, r + k + 1, r + n, acc);
    lost := c';
    AddAtSum(M, S, m[..], r, n, k, 1, sq, c, c');
  }

  /** mpz_sqr_basic_limbs. */
  method SqrBasicLimbs(m: array<Limb>, r: nat, x: nat, n: nat)
    requires r + 2 * n <= m.Length && x + n <= m.Length && Apart(r, 2 * n, x, n)
    modifies m
    ensures Num(m[..], r, 2 * n) == old(Num(m[..], x, n) * Num(m[..], x, n))
    ensures Same(old(m[..]), m[..], r, 2 * n)
  {
    hide Num, Val;
    ghost var M := m[..];
    ghost var X := Num(M, x, n);
    Zero(m, r, 2 * n);
    NumKeep(M, m[..], r, 2 * n, x, n);
    DiagKeep(M, m[..], x, n);
    OffDiagonal(m, r, x, n);
    NumBound(M, x, n);
    SquareBound(X, n);
    var carry := Double(m, r, 2 * n);
    LostZero(carry, Pw(2 * n), Num(m[..], r, 2 * n), X * X);
    ghost var S := m[..];
    DiagKeep(M, S, x, n);
    AddDiagonal(m, r, x, n, X * X);
  }

  /** The squares of the limbs, each at twice its place. */
  method AddDiagonal(m: array<Limb>, r: nat, x: nat, n: nat, ghost XX: nat)
    requires r + 2 * n <= m.Length && x + n <= m.Length && Apart(r, 2 * n, x, n)
    requires Num(m[..], r, 2 * n) + Diag(m[..], x, n) == XX < Pw(2 * n)
    modifies m
    ensures Num(m[..], r, 2 * n) == XX
    ensures Same(old(m[..]), m[..], r, 2 * n)
  {
    hide Num, Val;
    ghost var M := m[..];
    for i := 0 to n
      invariant Same(M, m[..], r, 2 * n)
      invariant Num(m[..], r, 2 * n) + Diag(M, x, n) == XX + Diag(M, x, i)
    {
      DiagMono(M, x, i + 1, n);
      assert Diag(M, x, i + 1) == Diag(M, x, i) + SqTerm(M[x + i], 2 * i);
      var xi := m[x + i];
      if xi != 0 {
        ghost var lost := AddSquare(m, r, 2 * n, 2 * i, xi);
        LostZero(lost, Pw(2 * n), Num(m[..], r, 2 * n), XX);
      }
    }
  }

  lemma LostZero(lost: nat, p: nat, v: nat, bound: nat)
    requires v + lost * p <= bound < p
    ensures lost == 0
  {
    if lost > 0 {
      MulLe(1, lost, p);
      assert false;
    }
  }

  lemma SquareBound(X: nat, n: nat)
    requires X < Pw(n)
    ensures 0 <= X * X < Pw(2 * n)
  {
    PwAdd(n, n);
    NonNeg(X, X);
    MulLe(X, Pw(n), X);
    MulLt(X, Pw(n), Pw(n));
  }

  lemma {:induction false} DiagKeep(s: seq<Limb>, t: seq<Limb>, o: nat, n: nat)
    requires |s| == |t| && o + n <= |s| && forall i :: o <= i < o + n ==> s[i] == t[i]
    ensures Diag(s, o, n) == Diag(t, o, n)
  {
    if n > 0 {
      DiagKeep(s, t, o, n - 1);
    }
  }

  lemma {:induction false} DiagMono(s: seq<Limb>, o: nat, i: nat, n: nat)
    requires i <= n && o + n <= |s|
    ensures Diag(s, o, i) <= Diag(s, o, n)
    decreases n
  {
    if i < n {
      DiagMono(s, o, i, n - 1);
    }
  }
}
