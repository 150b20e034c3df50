/** Montgomery exponentiation (lib/sp_bigint.c:5050-5261). */
module Montgomery {
  import opened Limbs
  import opened Powers
  import opened Mul
  import opened Shifts
  import opened Knuth
  import opened Integers
  import opened MulMpz
  import opened DivMpz
  import opened Barrett

  // ----- congruence -----

  /** a and b leave the same remainder modulo n. */
  ghost predicate Cong(a: int, b: int, n: int)
    requires n > 0
  {
    exists k: int :: a - b == Times(k, n)
  }

  lemma CongWith(a: int, b: int, n: int, k: int)
    requires n > 0 && a - b == k * n
    ensures Cong(a, b, n)
  {
    assert a - b == Times(k, n);
  }

  lemma CongRefl(a: int, n: int)
    requires n > 0
    ensures Cong(a, a, n)
  {
    CongWith(a, a, n, 0);
  }

  lemma CongTrans(a: int, b: int, c: int, n: int)
    requires n > 0 && Cong(a, b, n) && Cong(b, c, n)
    ensures Cong(a, c, n)
  {
    var j :| a - b == Times(j, n);
    var k :| b - c == Times(k, n);
    Dist(j, k, n);
    CongWith(a, c, n, j + k);
  }

  lemma CongMul(a: int, b: int, c: int, d: int, n: int)
    requires n > 0 && Cong(a, b, n) && Cong(c, d, n)
    ensures Cong(a * c, b * d, n)
  {
    var j :| a - b == Times(j, n);
    var k :| c - d == Times(k, n);
    // ac - bd = (a - b) c + b (c - d)
    Dist(a, b, c);
    DistL(b, c, d);
    assert (j * n) * c == (j * c) * n;
    assert b * (k * n) == (b * k) * n;
    Dist(j * c, b * k, n);
    CongWith(a * c, b * d, n, j * c + b * k);
  }

  lemma CongMod(x: int, n: int)
    requires n > 0
    ensures Cong(x % n, x, n)
  {
    assert x == n * (x / n) + x % n;
    Dist(0, x / n, n);
    CongWith(x % n, x, n, -(x / n));
  }

  /** The remainder below n is determined by the congruence class. */
  lemma CongUnique(r: int, x: int, n: int)
    requires n > 0 && 0 <= r < n && Cong(r, x, n)
    ensures r == x % n
  {
    var k :| r - x == Times(k, n);
    assert x == n * (-k) + r by { assert n * (-k) == -(k * n); }
    FloorUnique(x, n, -k, r, x / n, x % n);
  }

  /** An odd modulus: a factor 2 can be cancelled. */
  lemma CancelTwo(a: int, b: int, n: int)
    requires n > 0 && n % 2 == 1 && Cong(2 * a, 2 * b, n)
    ensures Cong(a, b, n)
  {
    var k :| 2 * a - 2 * b == Times(k, n);
    EvenFactor(k, n, a - b);
    Assoc(2, k / 2, n);
    CongWith(a, b, n, k / 2);
  }

  lemma EvenFactor(k: int, n: int, d: int)
    requires n % 2 == 1 && k * n == 2 * d
    ensures k == 2 * (k / 2)
  {
    var h := n / 2;
    assert n == 2 * h + 1;
    DistL(k, 2 * h, 1);
    Assoc(2, k, h);
    assert k * (2 * h) == 2 * (k * h);
  }

  lemma {:induction false} CancelPower(a: int, b: int, n: int, e: nat)
    requires n > 0 && n % 2 == 1 && Cong(a * Two(e), b * Two(e), n)
    ensures Cong(a, b, n)
    decreases e
  {
    if e > 0 {
      var t := Two(e - 1);
      assert Two(e) == 2 * t;
      assert a * (2 * t) == 2 * (a * t);
      assert b * (2 * t) == 2 * (b * t);
      CancelTwo(a * t, b * t, n);
      CancelPower(a, b, n, e - 1);
    }
  }

  // ----- the limb inverse -----

  lemma NewtonStep(n0: int, x: int, k: int, d: int, t: int, x': int, dn: int, c1: int, c2: int)
    requires n0 * x == 1 + k * d && d * d == c1 * dn && BASE == c2 * dn
    requires t == (2 - n0 * x) % BASE && x' == (x * t) % BASE
    ensures exists k': int :: n0 * x' == 1 + Times(k', dn)
  {
    var i, j := (2 - n0 * x) / BASE, (x * t) / BASE;
    assert t == 2 - n0 * x - BASE * i;
    assert x' == x * t - BASE * j;
    // n0 x' = n0 x (2 - n0 x) - BASE (n0 x i + n0 j) = 1 - (k d)^2 - BASE (...)
    var s := n0 * x * i + n0 * j;
    assert n0 * x' == n0 * (x * t) - n0 * (BASE * j) by { DistL(n0, x * t, BASE * j); }
    assert n0 * (x * t) == (n0 * x) * t;
    assert (n0 * x) * t == (n0 * x) * (2 - n0 * x) - (n0 * x) * (BASE * i) by { DistL(n0 * x, 2 - n0 * x, BASE * i); }
    assert (n0 * x) * (BASE * i) == BASE * (n0 * x * i);
    assert n0 * (BASE * j) == BASE * (n0 * j);
    assert n0 * x' == (n0 * x) * (2 - n0 * x) - BASE * s;
    OneMinusSquare(k * d);
    assert (k * d) * (k * d) == (k * k) * (d * d);
    assert (k * k) * (c1 * dn) == (k * k * c1) * dn;
    assert (c2 * dn) * s == (c2 * s) * dn;
    Dist(k * k * c1, c2 * s, dn);
    var k' := -(k * k * c1 + c2 * s);
    Dist(0, k * k * c1 + c2 * s, dn);
    assert n0 * x' == 1 + Times(k', dn);
  }

  lemma OneMinusSquare(u: int)
    ensures (1 + u) * (2 - (1 + u)) == 1 - u * u
  {
  }

  /** The precision after i rounds: 2, 4, 16, 256, 2^16, then the full limb. */
  function Precision(i: nat): nat {
    if i == 0 then 2 else if i == 1 then 4 else if i == 2 then 16 else if i == 3 then 256
    else if i == 4 then 0x1_0000 else BASE
  }

  /** n0 * rho = -1 modulo the limb base. */
  predicate NegInverse(n0: Limb, rho: Limb) {
    (n0 * rho + 1) % BASE == 0
  }

  /** montgomery_setup: the negated inverse of an odd limb modulo the limb base. */
  method Setup(n0: Limb) returns (rho: Limb)
    requires n0 % 2 == 1
    ensures NegInverse(n0, rho) && (n0 * rho + 1) % 0x1_0000_0000 == 0
  {
    var x: int := 1;
    assert n0 * x == 1 + Times(n0 / 2, Precision(0));
    for i := 0 to 6
      invariant 0 <= x < BASE
      invariant exists k: int :: n0 * x == 1 + Times(k, Precision(i))
    {
      ghost var k: int :| n0 * x == 1 + Times(k, Precision(i));
      var t := (2 - n0 * x) % BASE;
      var x' := x * t % BASE;
      ghost var d, dn := Precision(i), Precision(i + 1);
      NewtonStep(n0, x, k, d, t, x', dn, d * d / dn, BASE / dn);
      x := x';
    }
    ghost var k: int :| n0 * x == 1 + Times(k, BASE);
    rho := (0 - x) % BASE;
    InverseNegated(n0, x, k, rho);
  }

  lemma Negate(a: int, b: int)
    ensures a * (-b) == -(a * b)
  {
  }

  lemma ModZero(x: int, k: int)
    requires x == BASE * k
    ensures x % BASE == 0
  {
  }

  lemma InverseNegated(n0: int, x: int, k: int, rho: int)
    requires n0 * x == 1 + k * BASE && 0 <= x < BASE && rho == (0 - x) % BASE
    ensures (n0 * rho + 1) % BASE == 0
  {
    var i := (0 - x) / BASE;
    assert rho == -x - BASE * i;
    DistL(n0, -x, BASE * i);
    Negate(n0, x);
    Assoc(n0, BASE, i);
    assert n0 * rho + 1 == BASE * (-k - n0 * i);
    ModZero(n0 * rho + 1, -k - n0 * i);
  }

  // ----- REDC -----

  /** The multiple of n that REDC adds clears the lowest limb. */
  lemma ClearsLimb(w: int, n0: int, rho: int, mi: int, rest: int, a: int)
    requires (n0 * rho + 1) % BASE == 0 && mi == (w * rho) % BASE
    requires a == w + BASE * rest
    ensures (a + mi * n0) % BASE == 0
  {
    var i, j := (w * rho) / BASE, (n0 * rho + 1) / BASE;
    assert mi == w * rho - BASE * i;
    assert n0 * rho + 1 == BASE * j;
    Dist(w * rho, BASE * i, n0);
    assert (w * rho) * n0 == w * (n0 * rho);
    DistL(w, n0 * rho, 1);
    assert w * (BASE * j) == BASE * (w * j);
    assert (BASE * i) * n0 == BASE * (i * n0);
    ModZero(a + mi * n0, rest + w * j - i * n0);
  }

  /** One round: limb i cleared by adding mi * n at limb i. */
  method RedcRound(m: array<Limb>, i: nat, ws: nat, k: nat, rho: Limb) returns (mi: Limb, ghost lost: nat)
    requires i + k < ws && ws + k <= m.Length && k > 0
    requires NegInverse(m[ws], rho)
    modifies m
    ensures Num(m[..], i, ws - i) + lost * Pw(ws - i) == old(Num(m[..], i, ws - i)) + mi * old(Num(m[..], ws, k))
    ensures lost == 0 ==> Num(m[..], i, ws - i) == BASE * Num(m[..], i + 1, ws - i - 1)
    ensures Same(old(m[..]), m[..], i, ws - i)
  {
    hide Num, Val, Pw;
    ghost var M := m[..];
    SuffixStep(M, i, ws - i, 0);
    SuffixStep(M, ws, k, 0);
    mi := (m[i] * rho) % BASE;
    lost := AddMulAt(m, i, ws - i, 0, ws, k, mi);
    PwFirst();
    SuffixStep(m[..], i, ws - i, 0);
    if lost == 0 {
      LowLimbZero(M[i], M[ws], rho, mi, Num(M, i + 1, ws - i - 1), Num(M, ws + 1, k - 1),
                  Num(M, i, ws - i), Num(M, ws, k), m[i], Num(m[..], i + 1, ws - i - 1));
    }
  }

  lemma LowLimbZero(w: int, n0: int, rho: int, mi: int, ar: int, nr: int, a: int, n: int, lo: int, hi: int)
    requires (n0 * rho + 1) % BASE == 0 && mi == (w * rho) % BASE
    requires a == w + BASE * ar && n == n0 + BASE * nr && 0 <= lo < BASE && lo + BASE * hi == a + mi * n
    ensures lo == 0
  {
    ClearsLimb(w, n0, rho, mi, ar, a);
    DistL(mi, n0, BASE * nr);
    assert mi * (BASE * nr) == BASE * (mi * nr);
    var c := (a + mi * n0) / BASE;
    assert a + mi * n0 == BASE * c;
    assert lo == BASE * (c + mi * nr - hi);
  }

  lemma BelowPower(q: nat, mi: nat, i: nat)
    requires q < Pw(i) && mi < BASE
    ensures 0 <= q + mi * Pw(i) < Pw(i + 1)
  {
    PwNext(i);
    MulLe(mi, BASE - 1, Pw(i));
    NonNeg(mi, Pw(i));
    Dist(BASE, 1, Pw(i));
  }

  /** What REDC accumulates stays below 2 R n. */
  lemma AccumulatorBound(X: nat, q: nat, N: nat, k: nat)
    requires q < Pw(k) && X < Pw(k) * N
    ensures X + q * N < (2 * N) * Pw(k)
  {
    MulLe(q, Pw(k), N);
    assert (2 * N) * Pw(k) == 2 * (Pw(k) * N);
  }

  lemma DoubleBelow(N: nat, k: nat)
    requires N < Pw(k)
    ensures 2 * N < Pw(k + 1)
  {
    PwNext(k);
  }

  lemma CancelLt(a: int, b: int, c: int)
    requires a * c < b * c && c > 0
    ensures a < b
  {
    if a >= b {
      MulLe(b, a, c);
      assert false;
    }
  }

  lemma RoundSum(A: int, mi: int, N: int, q: int, P: int, X: int)
    requires A * P == X + q * N
    ensures (A + mi * N) * P == X + (q + mi * P) * N
  {
    Dist(A, mi * N, P);
    Dist(q, mi * P, N);
    Assoc(mi, N, P);
    Assoc(mi, P, N);
    assert N * P == P * N;
  }

  /** The carry of a round never leaves the work buffer. */
  lemma NoLoss(A: nat, A1: nat, lost: nat, mi: nat, N: nat, q: nat, i: nat, ws: nat, k: nat, X: nat)
    requires i < k && ws >= 2 * k + 2 && mi < BASE && N < Pw(k) && X < Pw(k) * N && q < Pw(i)
    requires A1 + lost * Pw(ws - i) == A + mi * N && A * Pw(i) == X + q * N
    ensures lost == 0 && q + mi * Pw(i) < Pw(i + 1)
    ensures (A + mi * N) * Pw(i) == X + (q + mi * Pw(i)) * N
  {
    hide Pw;
    BelowPower(q, mi, i);
    PwMono(i + 1, k);
    AccumulatorBound(X, q + mi * Pw(i), N, k);
    RoundSum(A, mi, N, q, Pw(i), X);
    DoubleBelow(N, k);
    MulLt(2 * N, Pw(k + 1), Pw(k));
    PwAdd(k + 1, k);
    assert k + 1 + k == 2 * k + 1;
    PwMono(2 * k + 1, ws);
    PwAdd(ws - i, i);
    assert ws - i + i == ws;
    CancelLt(A + mi * N, Pw(ws - i), Pw(i));
    LostZero(lost, Pw(ws - i), A1, A + mi * N);
  }

  lemma ShiftedSum(A2: nat, A1: nat, i: nat)
    requires A1 == BASE * A2
    ensures A2 * Pw(i + 1) == A1 * Pw(i)
  {
    PwNext(i);
    assert A2 * (BASE * Pw(i)) == (BASE * A2) * Pw(i);
  }

  /** All the rounds: what is left above limb k, times R, is X + q * N. */
  method RedcRounds(m: array<Limb>, ws: nat, k: nat, rho: Limb, ghost X: nat, ghost N: nat) returns (ghost q: nat)
    requires k > 0 && ws >= 2 * k + 2 && ws + k <= m.Length && NegInverse(m[ws], rho)
    requires Num(m[..], 0, ws) == X < Pw(k) * N && Num(m[..], ws, k) == N < Pw(k)
    modifies m
    ensures q < Pw(k) && Num(m[..], k, ws - k) * Pw(k) == X + q * N
  {
    hide Num, Val, Pw, NegInverse;
    q := 0;
    var i := 0;
    PwFirst();
    while i < k
      invariant 0 <= i <= k && q < Pw(i) && m[ws] == old(m[ws])
      invariant Num(m[..], ws, k) == N
      invariant Num(m[..], i, ws - i) * Pw(i) == X + q * N
    {
      ghost var S := m[..];
      var mi;
      ghost var lost;
      mi, lost := RedcRound(m, i, ws, k, rho);
      NumKeep(S, m[..], i, ws - i, ws, k);
      NoLoss(Num(S, i, ws - i), Num(m[..], i, ws - i), lost, mi, N, q, i, ws, k, X);
      ShiftedSum(Num(m[..], i + 1, ws - i - 1), Num(m[..], i, ws - i), i);
      NonNeg(mi, Pw(i));
      q := q + mi * Pw(i);
      i := i + 1;
    }
  }

  /** REDC on magnitudes: t * R = x + q * n for some q below R. */
  method RedcMag(x: seq<Limb>, n: seq<Limb>, rho: Limb) returns (t: seq<Limb>, ghost q: nat)
    requires |n| > 0 && NegInverse(n[0], rho) && Val(x) < Pw(|n|) * Val(n)
    ensures q < Pw(|n|) && Val(t) * Pw(|n|) == Val(x) + q * Val(n) && Val(t) < 2 * Val(n)
  {
    hide Num, Val, Pw, NegInverse;
    var k := |n|;
    var ws := if |x| > k then |x| + k + 2 else 2 * k + 2;
    var xz := x + Zeros(ws - |x|);
    var m := Memory(0, xz, n);
    ValAppend(x, Zeros(ws - |x|));
    ValZeros(Zeros(ws - |x|));
    assert m[ws] == n[0] by { assert m[..][ws..][0] == m[ws]; }
    ghost var N := Val(n);
    ValBound(n);
    q := RedcRounds(m, ws, k, rho, Val(x), N);
    AccumulatorBound(Val(x), q, N, k);
    CancelLt(Num(m[..], k, ws - k), 2 * N, Pw(k));
    DoubleBelow(N, k);
    SmallTail(m[..], k, ws - k, k + 1);
    NumTrim(m[..], k, k + 1, ws - k);
    t := m[k..2 * k + 1];
    NumWhole(m[..], t, k);
  }

  lemma SubtractedCong(T: int, N: int, R: int, q: int, X: int)
    requires N > 0 && T * R == X + q * N
    ensures Cong((T - N) * R, X, N)
  {
    hide Cong;
    Dist(T, N, R);
    Dist(q, R, N);
    CongWith((T - N) * R, X, N, q - R);
  }

  /** mpz_montgomery_reduce: the signs are ignored; r * R is congruent to |x|. */
  method Redc(result: Mpz, x: Mpz, n: Mpz, rho: Limb)
    requires x.Ok() && n.Ok() && n.sn == 1 && |n.p| > 0 && n.Mag() > 0 && result != n
    requires NegInverse(n.p[0], rho) && x.Mag() < Pw(|n.p|) * n.Mag()
    modifies result
    ensures result.Ok() && 0 <= result.Value() < n.Mag() && result.Value() == result.Mag()
    ensures Cong(result.Value() * Pw(|n.p|), old(x.Mag()), n.Mag())
  {
    hide Val, Pw, Cong, NegInverse;
    ghost var N, X, R := Val(n.p), Val(x.p), Pw(|n.p|);
    var t;
    ghost var q;
    t, q := RedcMag(x.p, n.p, rho);
    Store(result, t, 1);
    ghost var T := result.Mag();
    CongWith(T * R, X, N, q);
    var c := Ucmp(result.p, n.p);
    if c >= 0 {
      assert result.sn == 1;
      SubMpz(result, result, n);
      assert result.Value() == T - N;
      NonNegMag(result.sn, Val(result.p));
      SubtractedCong(T, N, R, q, X);
    }
  }

  lemma InputBound(a: nat, b: nat, N: nat, k: nat)
    requires a < N && b < N && N < Pw(k)
    ensures 0 <= a * b < Pw(k) * N
  {
    NonNeg(a, b);
    MulLe(a, N, b);
    MulLt(b, N, N);
    assert N * b == b * N;
    MulLe(N, Pw(k), N);
  }

  lemma SmallInput(a: nat, N: nat, k: nat)
    requires a < N
    ensures a < Pw(k) * N
  {
    MulLe(1, Pw(k), N);
  }

  /** z is v in Montgomery form modulo n: a residue congruent to v * R. */
  ghost predicate Form(z: Mpz, v: int, n: Mpz)
    reads z, n
  {
    && z.Ok() && 0 <= z.Value() < n.Mag() && z.Value() == z.Mag()
    && Cong(z.Value(), v * Pw(|n.p|), n.Mag())
  }

  ghost predicate Modulus(n: Mpz)
    reads n
  {
    n.Ok() && n.sn == 1 && |n.p| > 0 && n.p[0] % 2 == 1 && n.Mag() > 0 && n.Mag() % 2 == 1
  }

  /** Both factors in Montgomery form, and the reduction of their product. */
  lemma FormProduct(z: int, x: int, y: int, a: int, b: int, k: nat, N: nat)
    requires N > 0 && N % 2 == 1 && Cong(x, a * Pw(k), N) && Cong(y, b * Pw(k), N)
    requires Cong(z * Pw(k), x * y, N)
    ensures Cong(z, (a * b) * Pw(k), N)
  {
    hide Pw, Two, Cong;
    var R := Pw(k);
    CongMul(x, a * R, y, b * R, N);
    CongTrans(z * R, x * y, (a * R) * (b * R), N);
    assert (a * R) * (b * R) == ((a * b) * R) * R;
    TwoPw(k);
    CancelPower(z, (a * b) * R, N, 32 * k);
  }

  lemma SizeBelow(a: seq<Limb>, n: seq<Limb>)
    requires Norm(a) && |n| > 0 && Val(a) < Val(n)
    ensures |a| <= |n|
  {
    SizeLe(a, n);
  }

  /** A product in Montgomery form: mpz_mul, then REDC. z may be x or y. */
  method MontMul(z: Mpz, x: Mpz, y: Mpz, n: Mpz, rho: Limb, ghost a: int, ghost b: int) returns (ok: bool)
    requires Modulus(n) && NegInverse(n.p[0], rho) && z != n
    requires Form(x, a, n) && Form(y, b, n)
    modifies z
    ensures ok ==> Form(z, a * b, n)
    ensures 32 * (2 * |n.p| + 1) <= BIT_LIMIT ==> ok
  {
    hide Val, Pw, Cong, NegInverse;
    var temp := new Mpz();
    SizeBelow(x.p, n.p);
    SizeBelow(y.p, n.p);
    ghost var X, Y, N, k := x.Value(), y.Value(), n.Mag(), |n.p|;
    ok := MulTo(temp, x, y);
    if !ok { return; }
    ValBound(n.p);
    InputBound(X, Y, N, k);
    NonNegMag(temp.sn, Val(temp.p));
    Redc(z, temp, n, rho);
    FormProduct(z.Value(), X, Y, a, b, k, N);
  }

  lemma PowerSize(p: seq<Limb>, e: nat)
    requires Val(p) == Pw(e)
    ensures |p| > e
  {
    ValBound(p);
    if |p| <= e {
      PwMono(|p|, e);
      assert false;
    }
  }

  /** mpz_montgomery_calc_R2. */
  method CalcR2(r: Mpz, n: Mpz) returns (ok: bool)
    requires Modulus(n) && r != n
    modifies r
    ensures ok ==> Form(r, Pw(|n.p|), n)
    ensures 32 * (2 * |n.p| + 1) <= BIT_LIMIT ==> ok
  {
    hide Val, Pw, Two, Cong, BarrettValue;
    ghost var k, N := |n.p|, n.Mag();
    ok := SetPower(r, 2 * |n.p| * 32);
    if !ok { return; }
    assert 2 * k * 32 == 32 * (2 * k);
    TwoPw(2 * k);
    PowerSize(r.p, 2 * k);
    PwAdd(k, k);
    assert k + k == 2 * k;
    ModTo(r, r, n);
    assert r.Mag() == Pw(2 * k) % N;
    CongMod(Pw(2 * k), N);
  }

  lemma ParityOf(n: seq<Limb>)
    requires |n| > 0
    ensures Val(n) % 2 == n[0] % 2
  {
    hide Val;
    ValCons(n[0], n[1..]);
    assert [n[0]] + n[1..] == n;
    assert Val(n) == n[0] + 2 * (0x8000_0000 * Val(n[1..]));
  }

  /** REDC of a number in Montgomery form gives the number's residue. */
  lemma FromForm(z: int, x: int, v: int, k: nat, N: nat)
    requires N > 0 && N % 2 == 1 && Cong(z * Pw(k), x, N) && Cong(x, v * Pw(k), N)
    ensures Cong(z, v, N)
  {
    hide Pw, Two, Cong;
    CongTrans(z * Pw(k), x, v * Pw(k), N);
    TwoPw(k);
    CancelPower(z, v, N, 32 * k);
  }

  /** REDC(R * R mod n) is 1 in Montgomery form, REDC(b * (R * R mod n)) is b. */
  lemma ToForm(z: int, b: int, r2: int, B: int, k: nat, N: nat)
    requires N > 0 && N % 2 == 1 && Cong(z * Pw(k), b * r2, N) && Cong(b, B, N) && Cong(r2, Pw(k) * Pw(k), N)
    ensures Cong(z, B * Pw(k), N)
  {
    hide Pw, Two, Cong;
    var R := Pw(k);
    CongMul(b, B, r2, R * R, N);
    CongTrans(z * R, b * r2, B * (R * R), N);
    Assoc(B, R, R);
    TwoPw(k);
    CancelPower(z, B * R, N, 32 * k);
  }

  /** One exponent bit. */
  method PowBit(acc: Mpz, bm: Mpz, n: Mpz, rho: Limb, bit: bool, ghost b: int, ghost E: nat, ghost t: nat)
      returns (ok: bool)
    requires Modulus(n) && NegInverse(n.p[0], rho) && acc != n && bm != n && acc != bm
    requires Form(acc, Power(b, E), n) && Form(bm, Power(b, Two(t)), n)
    modifies acc, bm
    ensures ok ==> Form(acc, Power(b, E + if bit then Two(t) else 0), n) && Form(bm, Power(b, Two(t + 1)), n)
    ensures 32 * (2 * |n.p| + 1) <= BIT_LIMIT ==> ok
  {
    hide Val, Pw, Cong, NegInverse, Power;
    ok := true;
    if bit {
      PowerSum(b, E, Two(t));
      ok := MontMul(acc, acc, bm, n, rho, Power(b, E), Power(b, Two(t)));
      if !ok { return; }
    }
    PowerSum(b, Two(t), Two(t));
    assert Two(t + 1) == Two(t) + Two(t);
    ok := MontMul(bm, bm, bm, n, rho, Power(b, Two(t)), Power(b, Two(t)));
  }

  /** Taking the low bit off a limb. */
  lemma BitStep(E: int, e: int, T: int, total: int)
    requires E + e * T == total
    ensures (E + if e % 2 == 1 then T else 0) + (e / 2) * (2 * T) == total
  {
    assert e == 2 * (e / 2) + e % 2;
    Dist(2 * (e / 2), e % 2, T);
    assert (e / 2) * (2 * T) == (2 * (e / 2)) * T;
  }

  /** The 32 bits of one exponent limb, low to high. */
  method PowLimb(acc: Mpz, bm: Mpz, n: Mpz, rho: Limb, limb: Limb, ghost b: int, ghost E0: nat, ghost i: nat)
      returns (ok: bool)
    requires Modulus(n) && NegInverse(n.p[0], rho) && acc != n && bm != n && acc != bm
    requires Form(acc, Power(b, E0), n) && Form(bm, Power(b, Two(32 * i)), n)
    modifies acc, bm
    ensures ok ==> 0 <= E0 + limb * Pw(i)
    ensures ok ==> Form(acc, Power(b, E0 + limb * Pw(i)), n) && Form(bm, Power(b, Two(32 * (i + 1))), n)
    ensures 32 * (2 * |n.p| + 1) <= BIT_LIMIT ==> ok
  {
    hide Val, Pw, Cong, NegInverse, Power, Two;
    var e: int := limb;
    ghost var E: nat := E0;
    NonNeg(limb, Pw(i));
    TwoPw(i);
    TwoLimb();
    var j := 0;
    while j < 32
      invariant 0 <= j <= 32 && Modulus(n) && n.p == old(n.p)
      invariant E + e * Two(32 * i + j) == E0 + limb * Pw(i)
      invariant 0 <= e < Two(32 - j)
      invariant Form(acc, Power(b, E), n) && Form(bm, Power(b, Two(32 * i + j)), n)
    {
      TwoStep(32 * i + j);
      TwoStep(32 - j - 1);
      BitStep(E, e, Two(32 * i + j), E0 + limb * Pw(i));
      ok := PowBit(acc, bm, n, rho, e % 2 == 1, b, E, 32 * i + j);
      if !ok { return; }
      E := E + if e % 2 == 1 then Two(32 * i + j) else 0;
      e := e / 2;
      j := j + 1;
    }
    ok := true;
    TwoZero();
    assert 32 * i + 32 == 32 * (i + 1);
  }

  lemma TwoStep(t: nat)
    ensures Two(t + 1) == 2 * Two(t)
  {
  }

  /** The base reduced and brought into Montgomery form. */
  method ToMontgomery(bm: Mpz, base: Mpz, r2: Mpz, n: Mpz, rho: Limb) returns (ok: bool)
    requires base.Ok() && Modulus(n) && NegInverse(n.p[0], rho) && bm != n && bm != r2
    requires Form(r2, Pw(|n.p|), n)
    modifies bm
    ensures ok ==> Form(bm, old(base.Value()), n)
    ensures 32 * (2 * |n.p| + 1) <= BIT_LIMIT ==> ok
  {
    hide Val, Pw, Cong, NegInverse, FloorMod, FloorDiv;
    ghost var N, k, b, R2 := n.Mag(), |n.p|, base.Value(), r2.Value();
    var reduced := new Mpz();
    assert n.Value() == N;
    MMod(reduced, base, n);
    ghost var B := reduced.Value();
    ReducedBase(b, N, B);
    NonNegMag(reduced.sn, Val(reduced.p));
    SizeBelow(reduced.p, n.p);
    SizeBelow(r2.p, n.p);
    var temp := new Mpz();
    ok := MulTo(temp, reduced, r2);
    if !ok { return; }
    ValBound(n.p);
    InputBound(B, R2, N, k);
    NonNegMag(temp.sn, Val(temp.p));
    Redc(bm, temp, n, rho);
    ToForm(bm.Value(), B, R2, b, k, N);
  }

  lemma ReducedBase(b: int, N: nat, r: int)
    requires N > 0 && r == FloorMod(b, N)
    ensures 0 <= r < N && Cong(r, b, N)
  {
    hide FloorDiv, FloorMod, Cong;
    var q := FloorDiv(b, N);
    FloorLaw(b, N, q, r);
    assert N * q == q * N;
    Dist(0, q, N);
    CongWith(r, b, N, -q);
  }

  /** All the exponent bits. */
  method PowLoop(acc: Mpz, bm: Mpz, n: Mpz, rho: Limb, exp: seq<Limb>, ghost b: int) returns (ok: bool)
    requires Modulus(n) && NegInverse(n.p[0], rho) && acc != n && bm != n && acc != bm
    requires Form(acc, 1, n) && Form(bm, b, n)
    modifies acc, bm
    ensures ok ==> Form(acc, Power(b, Val(exp)), n)
    ensures 32 * (2 * |n.p| + 1) <= BIT_LIMIT ==> ok
  {
    hide Val, Pw, Cong, NegInverse, Power, Two;
    var i := 0;
    PowerFirst(b);
    TwoZero();
    ValEmpty(exp[..0]);
    assert 32 * 0 == 0;
    while i < |exp|
      invariant 0 <= i <= |exp| && Modulus(n) && n.p == old(n.p)
      invariant Form(acc, Power(b, Val(exp[..i])), n) && Form(bm, Power(b, Two(32 * i)), n)
    {
      ValTake(exp, i);
      ok := PowLimb(acc, bm, n, rho, exp[i], b, Val(exp[..i]), i);
      if !ok { return; }
      i := i + 1;
    }
    assert exp[..i] == exp;
    ok := true;
  }

  /** mpz_powm_montgomery: base^exp mod n for every odd n. The exponent's sign is not looked at. */
  method PowM(result: Mpz, base: Mpz, exp: Mpz, n: Mpz) returns (ok: bool)
    requires base.Ok() && exp.Ok() && n.Ok() && n.sn == 1 && |n.p| > 0 && n.p[0] % 2 == 1
    requires result != n
    modifies result
    ensures n.Mag() > 0
    ensures ok ==> result.Ok() && result.Value() == Power(old(base.Value()), old(exp.Mag())) % n.Mag()
    ensures 32 * (2 * |n.p| + 1) <= BIT_LIMIT ==> ok
  {
    hide Val, Pw, Cong, NegInverse, Power;
    ParityOf(n.p);
    ghost var N, k, b, E := n.Mag(), |n.p|, base.Value(), exp.Mag();
    var rho := Setup(n.p[0]);
    var r2 := new Mpz();
    ok := CalcR2(r2, n);
    if !ok { return; }
    ghost var R2 := r2.Value();
    SmallInput(R2, N, k);
    var acc := new Mpz();
    Redc(acc, r2, n, rho);
    CongRefl(1, N);
    ToForm(acc.Value(), 1, R2, 1, k, N);
    var bm := new Mpz();
    ok := ToMontgomery(bm, base, r2, n, rho);
    if !ok { return; }
    ok := PowLoop(acc, bm, n, rho, exp.p, b);
    if !ok { return; }
    ghost var A := acc.Value();
    SmallInput(A, N, k);
    Redc(result, acc, n, rho);
    FromForm(result.Value(), A, Power(b, E), k, N);
    CongUnique(result.Value(), Power(b, E), N);
  }

}
