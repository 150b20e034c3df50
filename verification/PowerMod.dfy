/**
  Modular exponentiation as a caller sees it: mpz_powm and mpz_powm_i with their
  choice between Montgomery, Barrett and plain division, and Integer#pow with a
  modulus (lib/sp_bigint.c:4497-4665, 5415-5470). Barrett reduction is not exact
  for every modulus, so the fallback is not either.
 */
module PowerMod {
  import opened Limbs
  import opened Powers
  import opened Shifts
  import opened Knuth
  import opened Integers
  import opened MulMpz
  import opened DivMpz
  import opened Barrett
  import opened Montgomery

  // ----- what the fallback computes -----

  ghost predicate Positive(n: seq<Limb>) {
    Norm(n) && Val(n) > 0
  }

  /** The bit length of a modulus, and its range. */
  ghost function Size(n: seq<Limb>): (k: nat)
    requires Positive(n)
    ensures k > 0 && Two(k - 1) <= Val(n) < Two(k)
  {
    NonzeroTop(n);
    BitsRange(n);
    Bits(n)
  }

  lemma NonzeroTop(n: seq<Limb>)
    requires Positive(n)
    ensures |n| > 0 && n[|n| - 1] != 0
  {
    TopNonzero(n);
  }

  /** One reduction: by Barrett from four limbs on, by division below. */
  ghost function Reduced(x: nat, n: seq<Limb>): (r: nat)
    requires Positive(n)
    ensures r < Val(n)
  {
    if |n| >= 4 then BarrettValue(x, Val(n), Size(n)) else x % Val(n)
  }

  /** The loop from the lowest exponent bit up: t collects, b is squared. */
  ghost function Run(t: nat, b: nat, e: nat, n: seq<Limb>): nat
    requires Positive(n)
    decreases e
  {
    if e == 0 then t
    else Run(Collected(t, b, e, n), Squared(b, n), e / 2, n)
  }

  ghost function Collected(t: nat, b: nat, e: nat, n: seq<Limb>): nat
    requires Positive(n)
  {
    if e % 2 == 1 then NonNeg(t, b); Reduced(t * b, n) else t
  }

  ghost function Squared(b: nat, n: seq<Limb>): nat
    requires Positive(n)
  {
    NonNeg(b, b);
    Reduced(b * b, n)
  }

  /** The last product that is reduced into the answer. */
  ghost function Last(t: nat, b: nat, e: nat, n: seq<Limb>): nat
    requires Positive(n) && e > 0
    decreases e
  {
    NonNeg(t, b);
    if e == 1 then t * b else Last(Collected(t, b, e, n), Squared(b, n), e / 2, n)
  }

  // ----- when it is exact -----

  /** The reduction of x keeps the whole difference. */
  ghost predicate Exact(x: nat, n: seq<Limb>)
    requires Positive(n)
  {
    |n| >= 4 ==> Difference(x, Val(n), Size(n)) < Two(Size(n) + 1)
  }

  /** Every reduction of the run does; the squaring after the last bit does not matter. */
  ghost predicate AllExact(t: nat, b: nat, e: nat, n: seq<Limb>)
    requires Positive(n)
    decreases e
  {
    NonNeg(t, b);
    NonNeg(b, b);
    e > 0 ==>
    && (e % 2 == 1 ==> Exact(t * b, n))
    && (e > 1 ==> Exact(b * b, n))
    && AllExact(Collected(t, b, e, n), Squared(b, n), e / 2, n)
  }

  lemma ProductRange(t: nat, b: nat, N: nat, k: nat)
    requires t < N && b < N < Two(k)
    ensures 0 <= t * b < Two(2 * k)
  {
    hide Two;
    TwoAdd(k, k);
    SquareRange(t, b, Two(k));
  }

  lemma SquareRange(t: nat, b: nat, T: nat)
    requires t < T && b < T
    ensures 0 <= t * b < T * T
  {
    NonNeg(t, b);
    MulLe(t, T, b);
    MulLt(b, T, T);
    assert T * b == b * T;
  }

  /** For a product of residues, exactly then it leaves the remainder. */
  lemma ReducedExact(t: nat, b: nat, n: seq<Limb>)
    requires Positive(n) && t < Val(n) && b < Val(n)
    ensures t * b >= 0 && (Reduced(t * b, n) == (t * b) % Val(n) <==> Exact(t * b, n))
  {
    hide Val, Two, BarrettValue, Difference, Size;
    ProductRange(t, b, Val(n), Size(n));
    BarrettExactInRange(t * b, Val(n), Size(n));
  }

  /** A residue is not changed. */
  lemma ReducedSmall(x: nat, n: seq<Limb>)
    requires Positive(n) && x < Val(n)
    ensures Reduced(x, n) == x
  {
    hide Val, Two, BarrettValue, Size;
    SmallCase(x, Val(n), Size(n));
    QuotientIs(x, Val(n), 0, x);
  }

  lemma {:induction false} CongPower(a: int, b: int, e: nat, n: int)
    requires n > 0 && Cong(a, b, n)
    ensures Cong(Power(a, e), Power(b, e), n)
  {
    hide Cong;
    if e == 0 {
      CongRefl(1, n);
    } else {
      CongPower(a, b, e - 1, n);
      CongMul(a, b, Power(a, e - 1), Power(b, e - 1), n);
    }
  }

  lemma CongReduced(t: nat, b: nat, n: seq<Limb>)
    requires Positive(n) && t < Val(n) && b < Val(n) && t * b >= 0 && Exact(t * b, n)
    ensures Cong(Reduced(t * b, n), t * b, Val(n))
  {
    hide Val, Cong, Reduced, Exact;
    ReducedExact(t, b, n);
    CongMod(t * b, Val(n));
  }

  /** b squared to half the exponent is b to the even part of it. */
  lemma {:induction false} PowerOfSquare(b: int, h: nat)
    ensures Power(b * b, h) == Power(b, 2 * h)
  {
    hide Power;
    PowerFirst(b);
    PowerFirst(b * b);
    if h > 0 {
      PowerOfSquare(b, h - 1);
      PowerStep(b * b, h - 1);
      PowerStep(b, 2 * h - 2);
      PowerStep(b, 2 * h - 1);
      Assoc(b, b, Power(b, 2 * h - 2));
    }
  }

  lemma OddPower(t: int, b: int, h: nat)
    ensures (t * b) * Power(b * b, h) == t * Power(b, 2 * h + 1)
  {
    hide Power;
    PowerOfSquare(b, h);
    PowerStep(b, 2 * h);
    Assoc(t, b, Power(b, 2 * h));
  }

  lemma HalfPower(t: int, b: int, e: nat)
    requires e > 0
    ensures (if e % 2 == 1 then t * b else t) * Power(b * b, e / 2) == t * Power(b, e)
  {
    hide Power;
    var h := e / 2;
    if e % 2 == 1 {
      assert e == 2 * h + 1;
      OddPower(t, b, h);
    } else {
      assert e == 2 * h;
      PowerOfSquare(b, h);
    }
  }

  /** When every reduction is exact, the run computes the power. */
  lemma {:induction false} RunCong(t: nat, b: nat, e: nat, n: seq<Limb>)
    requires Positive(n) && t < Val(n) && b < Val(n) && AllExact(t, b, e, n)
    ensures Run(t, b, e, n) < Val(n) && Cong(Run(t, b, e, n), t * Power(b, e), Val(n))
    decreases e
  {
    hide Val, Cong, Reduced, Exact, Power;
    var N := Val(n);
    if e == 0 {
      PowerFirst(b);
      CongRefl(t, N);
    } else {
      var t', b' := Collected(t, b, e, n), Squared(b, n);
      NonNeg(t, b);
      NonNeg(b, b);
      RunCong(t', b', e / 2, n);
      var u := if e % 2 == 1 then t * b else t;
      if e % 2 == 1 { CongReduced(t, b, n); } else { CongRefl(t, N); }
      HalfPower(t, b, e);
      if e > 1 {
        CongReduced(b, b, n);
        CongPower(b', b * b, e / 2, N);
      } else {
        PowerFirst(b');
        PowerFirst(b * b);
        CongRefl(1, N);
      }
      CongMul(t', u, Power(b', e / 2), Power(b * b, e / 2), N);
      CongTrans(Run(t, b, e, n), t' * Power(b', e / 2), t * Power(b, e), N);
    }
  }

  /** The fallback's answer is b^e mod n. */
  ghost predicate Right(b: nat, e: nat, n: seq<Limb>)
    requires Positive(n)
  {
    Run(1, b, e, n) == Power(b, e) % Val(n)
  }

  lemma ExactIsRight(b: nat, e: nat, n: seq<Limb>)
    requires Positive(n) && Val(n) > 1 && b < Val(n) && AllExact(1, b, e, n)
    ensures Right(b, e, n)
  {
    hide Val, Cong, Run, AllExact, Power;
    RunCong(1, b, e, n);
    CongUnique(Run(1, b, e, n), Power(b, e), Val(n));
  }

  // ----- and when it is right for every exponent -----

  /** A run on exponent D + 2^i * f has come to t and c after i bits, with f left. */
  ghost predicate Reaches(b: nat, D: nat, i: nat, t: nat, c: nat, n: seq<Limb>)
    requires Positive(n)
  {
    forall f: nat :: Run(1, b, Later(D, i, f), n) == Run(t, c, f, n)
  }

  ghost function Later(D: nat, i: nat, f: nat): nat {
    NonNeg(Two(i), f);
    D + Two(i) * f
  }

  lemma ReachesAt(b: nat, D: nat, i: nat, t: nat, c: nat, n: seq<Limb>, f: nat)
    requires Positive(n) && Reaches(b, D, i, t, c, n)
    ensures Run(1, b, Later(D, i, f), n) == Run(t, c, f, n)
  {
    hide Run;
  }

  lemma ReachesNext(b: nat, D: nat, i: nat, t: nat, c: nat, bit: nat, n: seq<Limb>)
    requires Positive(n) && Reaches(b, D, i, t, c, n) && bit <= 1
    ensures Reaches(b, Later(D, i, bit), i + 1, Collected(t, c, bit, n), Squared(c, n), n)
  {
    hide Val, Collected, Squared, Later, Two;
    var t', c' := Collected(t, c, bit, n), Squared(c, n);
    forall f: nat ensures Run(1, b, Later(Later(D, i, bit), i + 1, f), n) == Run(t', c', f, n) {
      LaterNext(D, i, bit, f);
      ReachesAt(b, D, i, t, c, n, 2 * f + bit);
      OneBit(t, c, bit, f, n);
    }
  }

  lemma LaterNext(D: nat, i: nat, bit: nat, f: nat)
    ensures Later(Later(D, i, bit), i + 1, f) == Later(D, i, 2 * f + bit)
  {
    assert Two(i + 1) == 2 * Two(i);
    hide Two;
    DistL(Two(i), 2 * f, bit);
    assert Two(i) * (2 * f) == (2 * Two(i)) * f;
  }

  lemma OneBit(t: nat, c: nat, bit: nat, f: nat, n: seq<Limb>)
    requires Positive(n) && bit <= 1
    ensures Run(t, c, 2 * f + bit, n) == Run(Collected(t, c, bit, n), Squared(c, n), f, n)
  {
    hide Val, Reduced, Squared;
    assert (2 * f + bit) / 2 == f && (2 * f + bit) % 2 == bit;
  }

  ghost predicate AllRight(b: nat, n: seq<Limb>)
    requires Positive(n)
  {
    forall e: nat :: Right(b, e, n)
  }

  /** A product of two right residues is the right residue of the sum of the exponents. */
  lemma ResidueProduct(b: int, d: nat, e: nat, N: nat)
    requires N > 0
    ensures ((Power(b, d) % N) * (Power(b, e) % N)) % N == Power(b, d + e) % N
  {
    hide Power, Cong;
    var x, y := Power(b, d), Power(b, e);
    PowerSum(b, d, e);
    CongMod(x, N);
    CongMod(y, N);
    CongMul(x % N, x, y % N, y, N);
    var r := ((x % N) * (y % N)) % N;
    CongMod((x % N) * (y % N), N);
    CongTrans(r, (x % N) * (y % N), x * y, N);
    CongUnique(r, x * y, N);
  }

  /** The product collected next is the answer for exponent D + 2^i. */
  lemma CollectRight(b: nat, D: nat, i: nat, t: nat, c: nat, n: seq<Limb>)
    requires Positive(n) && AllRight(b, n) && Reaches(b, D, i, t, c, n)
    requires t == Power(b, D) % Val(n) && c == Power(b, Two(i)) % Val(n)
    ensures t * c >= 0 && Exact(t * c, n) && Collected(t, c, 1, n) == Power(b, Later(D, i, 1)) % Val(n)
  {
    hide Val, Power, Two, Reduced, Exact, Reaches, Run;
    NonNeg(t, c);
    ReachesAt(b, D, i, t, c, n, 1);
    OneStep(t, c, n);
    assert Right(b, Later(D, i, 1), n);
    ResidueProduct(b, D, Two(i), Val(n));
    ReducedExact(t, c, n);
  }

  lemma OneStep(t: nat, c: nat, n: seq<Limb>)
    requires Positive(n)
    ensures Run(t, c, 1, n) == Collected(t, c, 1, n)
  {
    hide Val, Reduced;
    OneBit(t, c, 1, 0, n);
  }

  /** The next square is the answer for exponent 2^(i+1). */
  lemma SquareRight(b: nat, i: nat, c: nat, n: seq<Limb>)
    requires Positive(n) && Val(n) > 1 && AllRight(b, n) && Reaches(b, 0, i, 1, c, n) && c == Power(b, Two(i)) % Val(n)
    ensures c * c >= 0 && Exact(c * c, n) && Squared(c, n) == Power(b, Two(i + 1)) % Val(n)
    ensures Reaches(b, 0, i + 1, 1, Squared(c, n), n)
  {
    assert Two(i + 1) == Two(i) + Two(i) && Later(0, i, 0) == 0 && Later(0, i + 1, 1) == Two(i + 1);
    hide Val, Power, Two, Reduced, Exact, Reaches, Run, Later;
    NonNeg(c, c);
    var c' := Squared(c, n);
    ReachesNext(b, 0, i, 1, c, 0, n);
    ReachesAt(b, 0, i + 1, 1, c', n, 1);
    OneStep(1, c', n);
    ReducedSmall(c', n);
    assert Right(b, Two(i + 1), n);
    ResidueProduct(b, Two(i), Two(i), Val(n));
    ReducedExact(c, c, n);
  }

  lemma {:induction false} RightIsExact(b: nat, D: nat, i: nat, t: nat, c: nat, e: nat, n: seq<Limb>)
    requires Positive(n) && Val(n) > 1 && AllRight(b, n) && Reaches(b, D, i, t, c, n) && Reaches(b, 0, i, 1, c, n)
    requires t == Power(b, D) % Val(n) && c == Power(b, Two(i)) % Val(n)
    ensures AllExact(t, c, e, n)
    decreases e
  {
    hide Val, Power, Two, Reduced, Exact, Reaches, Run, Later, Squared;
    if e > 0 {
      var bit := e % 2;
      if bit == 1 { CollectRight(b, D, i, t, c, n); } else { LaterZero(D, i); }
      if e > 1 {
        SquareRight(b, i, c, n);
        ReachesNext(b, D, i, t, c, bit, n);
        RightIsExact(b, Later(D, i, bit), i + 1, Collected(t, c, e, n), Squared(c, n), e / 2, n);
      }
    }
  }

  lemma LaterZero(D: nat, i: nat)
    ensures Later(D, i, 0) == D
  {
  }

  /** For every base: the answers are right for all exponents if and only if no reduction of any run loses bits. */
  lemma RightIffExact(b: nat, n: seq<Limb>)
    requires Positive(n) && Val(n) > 1 && b < Val(n)
    ensures AllRight(b, n) <==> NothingLost(b, n)
  {
    hide Val, Run, AllExact, Right, Reaches, Power, Two;
    if AllRight(b, n) {
      StartState(b, n);
      forall e: nat ensures AllExact(1, b, e, n) {
        RightIsExact(b, 0, 0, 1, b, e, n);
      }
    }
    if NothingLost(b, n) {
      forall e: nat ensures Right(b, e, n) {
        ExactIsRight(b, e, n);
      }
    }
  }

  ghost predicate NothingLost(b: nat, n: seq<Limb>)
    requires Positive(n)
  {
    forall e: nat :: AllExact(1, b, e, n)
  }

  lemma StartState(b: nat, n: seq<Limb>)
    requires Positive(n) && Val(n) > 1 && b < Val(n)
    ensures Reaches(b, 0, 0, 1, b, n) && 1 == Power(b, 0) % Val(n) && b == Power(b, Two(0)) % Val(n)
  {
    hide Val, Run, Power;
    TwoZero();
    PowerFirst(b);
    QuotientIs(1, Val(n), 0, 1);
    QuotientIs(b, Val(n), 0, b);
    forall f: nat ensures Run(1, b, Later(0, 0, f), n) == Run(1, b, f, n) {
      assert Later(0, 0, f) == f;
    }
  }

  /** A caller's check: fewer than four limbs, or 3n <= 2^(k+1). Then every base and exponent is right. */
  lemma CheckedIsExact(t: nat, b: nat, e: nat, n: seq<Limb>)
    requires Positive(n) && t < Val(n) && b < Val(n) && (|n| < 4 || 3 * Val(n) <= Two(Size(n) + 1))
    ensures AllExact(t, b, e, n)
    decreases e
  {
    hide Val, Reduced, Exact, Size, Two;
    if e > 0 {
      NonNeg(t, b);
      NonNeg(b, b);
      CheckedStep(t, b, n);
      CheckedStep(b, b, n);
      CheckedIsExact(Collected(t, b, e, n), Squared(b, n), e / 2, n);
    }
  }

  lemma CheckedStep(t: nat, b: nat, n: seq<Limb>)
    requires Positive(n) && t < Val(n) && b < Val(n) && (|n| < 4 || 3 * Val(n) <= Two(Size(n) + 1))
    ensures t * b >= 0 && Exact(t * b, n)
  {
    hide Val, Two, BarrettValue, Difference, Size;
    ProductRange(t, b, Val(n), Size(n));
    DifferenceRange(t * b, Val(n), Size(n));
  }

  // ----- the fallback's loops -----

  ghost predicate Ready(n: Mpz, mu: Mpz)
    reads n, mu
  {
    && n.Ok() && n.sn == 1 && n.Mag() > 0 && mu.Ok()
    && (|n.p| >= 4 ==> mu.Value() == Quot(Two(2 * Size(n.p)), n.Mag()))
  }

  /** A residue or the base, in at most big limbs. */
  ghost predicate Held(z: Mpz, big: nat)
    reads z
  {
    z.Ok() && z.sn >= 0 && |z.p| <= big
  }

  /** The reduction of x ends with a correcting subtraction, after which even a zero has the sign 1. */
  ghost predicate EndsCorrected(x: nat, n: seq<Limb>)
    requires Positive(n)
  {
    |n| >= 4 && Corrected(x, Val(n), Size(n))
  }

  /** mpz_barrett_reduce from four limbs on, mpz_mod below. */
  method ReduceTo(r: Mpz, x: Mpz, n: Mpz, mu: Mpz) returns (ok: bool)
    requires Ready(n, mu) && x.Ok() && x.sn >= 0 && r != x && r != n && r != mu
    modifies r
    ensures 32 * (|x.p| + |n.p| + 8) <= BIT_LIMIT ==> ok
    ensures ok ==> Held(r, |n.p|) && r.Mag() == Reduced(x.Mag(), n.p)
    ensures ok && EndsCorrected(x.Mag(), n.p) ==> r.sn == 1
  {
    hide Val, Two, BarrettValue, Corrected, Quot;
    NonzeroTop(n.p);
    if |n.p| >= 4 {
      ghost var steps;
      ok, steps := BarrettReduce(r, x, n, mu);
      if !ok { return; }
    } else {
      ModTo(r, x, n);
      NonNeg(x.sn, r.Mag());
      ok := true;
    }
    ghost var R := Reduced(x.Mag(), n.p);
    NoSign(r.sn, r.Mag());
    NonNegMag(r.sn, r.Mag());
    assert r.Mag() == R;
    SizeBelow(r.p, n.p);
  }

  lemma NoSign(sn: int, v: nat)
    requires sn * v >= 0 && -1 <= sn && (sn < 0 ==> v > 0)
    ensures sn >= 0
  {
  }

  /** mpz_mul and the reduction; the result may be an operand. */
  method MulReduce(r: Mpz, u: Mpz, v: Mpz, n: Mpz, mu: Mpz, ghost big: nat) returns (ok: bool)
    requires Ready(n, mu) && Held(u, big) && Held(v, big) && |n.p| <= big && r != n && r != mu
    modifies r
    ensures 96 * big + 288 <= BIT_LIMIT ==> ok
    ensures old(u.Mag() * v.Mag()) >= 0
    ensures ok ==> Held(r, big) && r.Mag() == Reduced(old(u.Mag() * v.Mag()), n.p)
    ensures ok && EndsCorrected(old(u.Mag() * v.Mag()), n.p) ==> r.sn == 1
  {
    hide Val, Two, Reduced, EndsCorrected, Quot;
    ghost var U, V := u.Mag(), v.Mag();
    NonNeg(U, V);
    ProductSize(u.p, v.p, big);
    HeldValue(u, big);
    HeldValue(v, big);
    var temp := new Mpz();
    ok := MulTo(temp, u, v);
    if !ok { return; }
    NoSign(temp.sn, temp.Mag());
    NonNegMag(temp.sn, temp.Mag());
    SizeBound(temp.p, 64 * big);
    ok := ReduceTo(r, temp, n, mu);
  }

  lemma HeldValue(z: Mpz, big: nat)
    requires Held(z, big)
    ensures z.Value() == z.Mag()
  {
    hide Val;
    NonNeg(z.sn, z.Mag());
    NonNegMag(z.sn, z.Mag());
  }

  lemma ProductSize(u: seq<Limb>, v: seq<Limb>, big: nat)
    requires |u| <= big && |v| <= big
    ensures 0 <= Val(u) * Val(v) < Two(64 * big)
  {
    hide Val, Two, Pw;
    ValBound(u);
    ValBound(v);
    PwMono(|u|, big);
    PwMono(|v|, big);
    TwoPw(big);
    TwoAdd(32 * big, 32 * big);
    SquareRange(Val(u), Val(v), Pw(big));
  }

  /** One exponent bit. */
  method PowerBit(t: Mpz, b: Mpz, n: Mpz, mu: Mpz, bit: nat, square: bool, ghost big: nat) returns (ok: bool)
    requires Ready(n, mu) && Held(t, big) && Held(b, big) && |n.p| <= big && bit <= 1
    requires t != b && t != n && t != mu && b != n && b != mu
    modifies t, b
    ensures 96 * big + 288 <= BIT_LIMIT ==> ok
    ensures old(t.Mag() * b.Mag()) >= 0
    ensures ok ==> Held(t, big) && Held(b, big) && t.Mag() == Collected(old(t.Mag()), old(b.Mag()), bit, n.p)
    ensures ok && square ==> b.Mag() == Squared(old(b.Mag()), n.p)
    ensures ok && bit == 1 && EndsCorrected(old(t.Mag() * b.Mag()), n.p) ==> t.sn == 1
    ensures bit == 0 ==> t.sn == old(t.sn)
  {
    hide Val, Two, Reduced, EndsCorrected, Quot;
    NonNeg(t.Mag(), b.Mag());
    ok := true;
    if bit == 1 {
      ok := MulReduce(t, t, b, n, mu, big);
      if !ok { return; }
    }
    if square {
      ok := MulReduce(b, b, b, n, mu, big);
    }
  }

  /** What a loop has to keep: the answer to come and the last product. */
  ghost predicate Going(t: Mpz, b: Mpz, e: nat, n: seq<Limb>, X: nat, E: nat)
    requires Positive(n) && E > 0
    reads t, b
  {
    && Run(t.Mag(), b.Mag(), e, n) == Run(1, X, E, n)
    && (e > 0 ==> Last(t.Mag(), b.Mag(), e, n) == Last(1, X, E, n))
    && (e == 0 && EndsCorrected(Last(1, X, E, n), n) ==> t.sn == 1)
  }

  lemma BitStepped(t: nat, b: nat, e: nat, n: seq<Limb>)
    requires Positive(n)
    ensures t * b >= 0
    ensures Run(t, b, e, n) == Run(Collected(t, b, e % 2, n), Squared(b, n), e / 2, n)
    ensures e > 1 ==> Last(t, b, e, n) == Last(Collected(t, b, e % 2, n), Squared(b, n), e / 2, n)
    ensures e == 1 ==> Last(t, b, e, n) == t * b
    ensures e <= 1 ==> Run(t, b, e, n) == Collected(t, b, e % 2, n)
  {
    hide Val, Collected, Squared;
    NonNeg(t, b);
    OnlyParity(t, b, e, n);
  }

  lemma OnlyParity(t: nat, b: nat, e: nat, n: seq<Limb>)
    requires Positive(n)
    ensures Collected(t, b, e, n) == Collected(t, b, e % 2, n) && Collected(t, b, 0, n) == t
  {
    hide Val, Reduced;
  }

  /** The loop over a machine exponent: no squaring after the last bit. */
  method PowerInt(t: Mpz, b: Mpz, n: Mpz, mu: Mpz, ex: nat, ghost big: nat) returns (ok: bool)
    requires Ready(n, mu) && Held(t, big) && t.Mag() == 1 && Held(b, big) && |n.p| <= big && ex > 0
    requires t != b && t != n && t != mu && b != n && b != mu
    modifies t, b
    ensures 96 * big + 288 <= BIT_LIMIT ==> ok
    ensures ok ==> Held(t, big) && t.Mag() == Run(1, old(b.Mag()), ex, n.p)
    ensures ok && EndsCorrected(Last(1, old(b.Mag()), ex, n.p), n.p) ==> t.sn == 1
  {
    hide Val, Two, Reduced, EndsCorrected, Quot, Collected, Squared;
    ghost var X := b.Mag();
    var e := ex;
    ok := true;
    while e > 0
      invariant ok && Ready(n, mu) && Held(t, big) && Held(b, big) && n.p == old(n.p)
      invariant Going(t, b, e, n.p, X, ex)
      decreases e
    {
      BitStepped(t.Mag(), b.Mag(), e, n.p);
      ok := PowerBit(t, b, n, mu, e % 2, e / 2 > 0, big);
      if !ok { return; }
      e := e / 2;
    }
  }

  /** The low bit of e + 2^m * rest. */
  lemma LowBit(e: nat, m: nat, rest: nat)
    requires m > 0 && e < Two(m)
    ensures Two(m) * rest >= 0 && Two(m - 1) * rest >= 0 && e / 2 < Two(m - 1)
    ensures (e + Two(m) * rest) % 2 == e % 2 && (e + Two(m) * rest) / 2 == e / 2 + Two(m - 1) * rest
  {
    hide Two;
    TwoStep(m - 1);
    NonNeg(Two(m - 1), rest);
    Assoc(2, Two(m - 1), rest);
    HalfSum(e, Two(m - 1) * rest);
  }

  lemma HalfSum(e: int, r: int)
    ensures (e + 2 * r) % 2 == e % 2 && (e + 2 * r) / 2 == e / 2 + r
  {
  }

  /** The 32 bits of one exponent limb; rest is what the limbs above are worth. */
  method PowerLimb(t: Mpz, b: Mpz, n: Mpz, mu: Mpz, limb: Limb, ghost rest: nat, ghost X: nat, ghost E: nat,
      ghost big: nat)
      returns (ok: bool)
    requires Ready(n, mu) && Held(t, big) && Held(b, big) && |n.p| <= big && E > 0
    requires t != b && t != n && t != mu && b != n && b != mu
    requires Going(t, b, limb + BASE * rest, n.p, X, E)
    modifies t, b
    ensures 96 * big + 288 <= BIT_LIMIT ==> ok
    ensures ok ==> Held(t, big) && Held(b, big) && Going(t, b, rest, n.p, X, E)
  {
    hide Val, Two, Reduced, EndsCorrected, Quot, Collected, Squared, Run, Last;
    var e: nat := limb;
    ok := true;
    TwoLimb();
    TwoZero();
    ghost var F: nat := limb + BASE * rest;
    var j := 0;
    while j < 32
      invariant ok && Ready(n, mu) && Held(t, big) && Held(b, big) && n.p == old(n.p)
      invariant 0 <= j <= 32 && e < Two(32 - j) && F == e + Two(32 - j) * rest
      invariant Going(t, b, F, n.p, X, E)
    {
      LowBit(e, 32 - j, rest);
      BitStepped(t.Mag(), b.Mag(), F, n.p);
      ghost var S := Squared(b.Mag(), n.p);
      ok := PowerBit(t, b, n, mu, e % 2, true, big);
      if !ok { return; }
      RunEnds(t.Mag(), b.Mag(), n.p);
      e, F, j := e / 2, F / 2, j + 1;
    }
    assert Two(0) * rest == rest;
  }

  lemma RunEnds(t: nat, b: nat, n: seq<Limb>)
    requires Positive(n)
    ensures Run(t, b, 0, n) == t
  {
  }

  /** The loop over the limbs of the exponent. */
  method PowerLimbs(t: Mpz, b: Mpz, n: Mpz, mu: Mpz, ex: seq<Limb>, ghost big: nat) returns (ok: bool)
    requires Ready(n, mu) && Held(t, big) && t.Mag() == 1 && Held(b, big) && |n.p| <= big && Val(ex) > 0
    requires t != b && t != n && t != mu && b != n && b != mu
    modifies t, b
    ensures 96 * big + 288 <= BIT_LIMIT ==> ok
    ensures ok ==> Held(t, big) && t.Mag() == Run(1, old(b.Mag()), Val(ex), n.p)
    ensures ok && EndsCorrected(Last(1, old(b.Mag()), Val(ex), n.p), n.p) ==> t.sn == 1
  {
    hide Val, Two, Reduced, EndsCorrected, Quot, Collected, Squared, Run, Last;
    ghost var X, E := b.Mag(), Val(ex);
    var i := 0;
    ok := true;
    assert ex[0..] == ex;
    while i < |ex|
      invariant ok && Ready(n, mu) && Held(t, big) && Held(b, big) && n.p == old(n.p)
      invariant 0 <= i <= |ex| && Going(t, b, Val(ex[i..]), n.p, X, E)
    {
      assert ex[i..] == [ex[i]] + ex[i + 1..];
      ValCons(ex[i], ex[i + 1..]);
      ok := PowerLimb(t, b, n, mu, ex[i], Val(ex[i + 1..]), X, E, big);
      if !ok { return; }
      i := i + 1;
    }
    ValEmpty(ex[i..]);
    RunEnds(t.Mag(), b.Mag(), n.p);
  }

  // ----- mpz_powm and mpz_powm_i -----

  /** Barrett's parameter, from four limbs on. */
  method Prepare(n: Mpz) returns (mu: Mpz, ok: bool)
    requires n.Ok() && n.sn == 1 && n.Mag() > 0
    ensures fresh(mu) && (64 * |n.p| + 32 <= BIT_LIMIT ==> ok) && (ok ==> Ready(n, mu))
  {
    hide Val, Two, Quot;
    mu := new Mpz();
    ok := true;
    NonzeroTop(n.p);
    if |n.p| >= 4 {
      BitsSmall(n.p);
      ok := BarrettMu(mu, n);
    }
  }

  /** A copy of the base and the number 1. */
  method Start(x: Mpz) returns (t: Mpz, b: Mpz)
    requires x.Ok() && x.sn >= 0
    ensures fresh(t) && fresh(b) && t != b && Held(t, 1) && t.Mag() == 1 && Held(b, |x.p|) && b.Mag() == x.Mag()
  {
    hide Val;
    t := new Mpz();
    SetInt(t, 1);
    NoSign(t.sn, t.Mag());
    NonNegMag(t.sn, t.Mag());
    b := new Mpz();
    Set(b, x);
  }

  /** Whether the modulus goes to Montgomery's method: odd, and of enough limbs. */
  predicate ByMontgomery(n: seq<Limb>, limbs: nat) {
    |n| >= limbs && |n| > 0 && n[0] % 2 == 1
  }

  /** The magnitude both functions leave for a positive exponent. */
  ghost function PowerValue(b: nat, e: nat, n: seq<Limb>, limbs: nat): int
    requires Positive(n)
  {
    if ByMontgomery(n, limbs) then Power(b, e) % Val(n) else Run(1, b, e, n)
  }

  /** The answer is a zero with the sign 1 when the last reduction is corrected to nothing. */
  ghost predicate KeepsSign(b: nat, e: nat, n: seq<Limb>, limbs: nat)
    requires Positive(n) && e > 0
  {
    !ByMontgomery(n, limbs) && EndsCorrected(Last(1, b, e, n), n)
  }

  method Move(zz: Mpz, t: Mpz, ghost big: nat)
    requires Held(t, big) && zz != t
    modifies zz
    ensures Held(zz, big) && zz.sn == t.sn && zz.Mag() == zz.Value() == t.Mag()
  {
    hide Val;
    Set(zz, t);
    HeldValue(zz, big);
  }

  /** mpz_powm_i: a machine exponent. */
  method PowInt(zz: Mpz, x: Mpz, ex: int, n: Mpz) returns (ok: bool)
    requires x.Ok() && x.sn >= 0 && n.Ok() && n.sn == 1 && n.Mag() > 0 && zz != x && zz != n
    requires -(BASE * BASE) < ex < BASE * BASE
    modifies zz
    ensures 96 * (|x.p| + |n.p|) + 384 <= BIT_LIMIT ==> ok
    ensures ok && ex == 0 ==> zz.Ok() && zz.Value() == 1
    ensures ok && ex < 0 ==> zz.p == old(zz.p) && zz.sn == old(zz.sn) && zz.alloc == old(zz.alloc)
    ensures ok && ex > 0 ==> zz.Ok() && zz.Value() == PowerValue(x.Mag(), ex, n.p, 2)
    ensures ok && ex > 0 && KeepsSign(x.Mag(), ex, n.p, 2) ==> zz.sn == 1
  {
    hide Val, Two, Run, Last, EndsCorrected, Power, Quot;
    if ex == 0 {
      SetInt(zz, 1);
      return true;
    }
    if ex < 0 { return true; }
    if 32 * |n.p| > BIT_LIMIT / 2 { return false; }
    HeldValue(x, |x.p|);
    if |n.p| >= 2 && n.p[0] % 2 == 1 {
      var e := new Mpz();
      SetInt(e, ex);
      NoSign(e.sn, e.Mag());
      NonNegMag(e.sn, e.Mag());
      ok := PowM(zz, x, e, n);
      return;
    }
    var t, b := Start(x);
    var mu;
    mu, ok := Prepare(n);
    if !ok { return; }
    ok := PowerInt(t, b, n, mu, ex, |x.p| + |n.p| + 1);
    if !ok { return; }
    Move(zz, t, |x.p| + |n.p| + 1);
  }

  /** mpz_powm: an exponent of any size. */
  method PowBig(zz: Mpz, x: Mpz, ex: Mpz, n: Mpz) returns (ok: bool)
    requires x.Ok() && x.sn >= 0 && ex.Ok() && n.Ok() && n.sn == 1 && n.Mag() > 0 && zz != x && zz != ex && zz != n
    modifies zz
    ensures 96 * (|x.p| + |n.p|) + 384 <= BIT_LIMIT ==> ok
    ensures ok && ex.Mag() == 0 ==> zz.Ok() && zz.Value() == 1
    ensures ok && ex.sn < 0 ==> zz.p == old(zz.p) && zz.sn == old(zz.sn) && zz.alloc == old(zz.alloc)
    ensures ok && ex.Value() > 0 ==> zz.Ok() && zz.Value() == PowerValue(x.Mag(), ex.Mag(), n.p, 4)
    ensures ok && ex.Value() > 0 && KeepsSign(x.Mag(), ex.Mag(), n.p, 4) ==> zz.sn == 1
  {
    hide Val, Two, Run, Last, EndsCorrected, Power, Quot;
    var none := IsZero(ex.p);
    if ex.sn == 0 || none {
      SetInt(zz, 1);
      return true;
    }
    if ex.sn < 0 { return true; }
    if 32 * |n.p| > BIT_LIMIT / 2 { return false; }
    HeldValue(x, |x.p|);
    if |n.p| >= 4 && n.p[0] % 2 == 1 {
      ok := PowM(zz, x, ex, n);
      return;
    }
    var t, b := Start(x);
    var mu;
    mu, ok := Prepare(n);
    if !ok { return; }
    ok := PowerLimbs(t, b, n, mu, ex.p, |x.p| + |n.p| + 1);
    if !ok { return; }
    Move(zz, t, |x.p| + |n.p| + 1);
  }

  // ----- Integer#pow(exp, mod) -----

  datatype Outcome = Done | RangeError | ZeroDivisionError

  /** The base taken into [0, n). */
  ghost function Within(sn: int, xs: seq<Limb>, n: seq<Limb>): (b: nat)
    requires Positive(n)
    ensures b < Val(n)
  {
    ResidueBelow(xs, n);
    var v := Residue(xs, n);
    if sn < 0 && v > 0 then Val(n) - v else v
  }

  lemma ResidueBelow(xs: seq<Limb>, n: seq<Limb>)
    requires Positive(n)
    ensures Residue(xs, n) < Val(n)
  {
    hide Val, Two, Difference;
    if UsesBarrett(|xs|, |n|) { BitsRange(n); }
  }

  /** What is answered for |mod| = n, before the sign of the modulus is looked at; sign is the exponent's. */
  ghost function Answer(b: nat, e: nat, sign: int, n: seq<Limb>, limbs: nat): int
    requires Positive(n)
  {
    if Val(n) == 1 || (b == 0 && sign > 0) then 0 else if e == 0 then 1 else PowerValue(b, e, n, limbs)
  }

  /** A negative modulus moves a nonzero answer down. */
  ghost function Signed(v: int, n: int, negative: bool): int {
    if negative && v != 0 then v - n else v
  }

  /** mpz_mod and one addition. */
  method BaseWithin(base: Mpz, c: Mpz) returns (b: Mpz)
    requires base.Ok() && c.Ok() && c.sn == 1 && c.Mag() > 0
    ensures fresh(b) && Held(b, |c.p|) && b.Mag() == Within(base.sn, base.p, c.p)
  {
    hide Val, Two, Residue, ModChecked;
    b := new Mpz();
    ModTo(b, base, c);
    ResidueBelow(base.p, c.p);
    SameSign(b.sn, base.sn, b.Mag());
    var zero := IsZero(b.p);
    if b.sn < 0 && !zero {
      AddMpz(b, b, c);
      NoSign(b.sn, b.Mag());
      NonNegMag(b.sn, b.Mag());
    }
    NonzeroTop(c.p);
    SizeBelow(b.p, c.p);
  }

  lemma SameSign(s: int, t: int, v: nat)
    requires s * v == t * v
    ensures v > 0 ==> s == t
  {
    if s < t && v > 0 { MulLt(s, t, v); }
    if t < s && v > 0 { MulLt(t, s, v); }
  }

  /** The subtraction at the end, for a negative modulus. */
  method Finish(r: Mpz, c: Mpz, negative: bool)
    requires r.Ok() && c.Ok() && c.sn == 1 && c.Mag() > 0 && r != c && 0 <= r.Value() < c.Mag()
    modifies r
    ensures r.Ok() && r.Value() == Signed(old(r.Value()), c.Mag(), negative)
    ensures !negative ==> r.sn == old(r.sn)
  {
    hide Val;
    var zero := IsZero(r.p);
    ZeroValue(r.sn, r.Mag());
    if negative && r.sn != 0 && !zero {
      SubMpz(r, r, c);
    }
  }

  lemma ZeroValue(sn: int, v: nat)
    requires sn == 0 ==> v == 0
    ensures sn * v == 0 <==> v == 0
  {
  }

  /** A copy of the modulus with the sign 1. */
  method Modulus1(mod: Mpz) returns (c: Mpz)
    requires mod.Ok() && mod.sn != 0 && mod.Mag() > 0
    ensures fresh(c) && c.Ok() && c.sn == 1 && c.p == mod.p
  {
    hide Val;
    c := new Mpz();
    Set(c, mod);
    if c.sn < 0 { c.sn := 1; }
  }

  lemma IsOne(n: seq<Limb>)
    requires Positive(n)
    ensures Val(n) == 1 <==> |n| == 1 && n[0] == 1
  {
    hide Val;
    NonzeroTop(n);
    if |n| == 1 {
      OneLimb(n);
    } else {
      ValTop(n);
      PwMono(1, |n| - 1);
      assert Pw(1) == BASE * Pw(0);
    }
  }

  /** A positive modulus and a base that is not zero: the sign that is left. */
  ghost predicate Leaves(b: nat, e: nat, n: seq<Limb>, limbs: nat)
    requires Positive(n) && e > 0
  {
    Val(n) > 1 && b > 0 && KeepsSign(b, e, n, limbs)
  }

  /** The call of mpz_powm_i, unless the answer is 0 anyway. */
  method RaiseInt(b: Mpz, exp: int, c: Mpz) returns (r: Mpz, ok: bool)
    requires c.Ok() && c.sn == 1 && c.Mag() > 0 && Held(b, |c.p|) && b.Mag() < c.Mag() && 0 <= exp < BASE * BASE
    ensures fresh(r) && (192 * |c.p| + 384 <= BIT_LIMIT ==> ok)
    ensures ok ==> r.Ok() && r.Value() == Answer(b.Mag(), exp, exp, c.p, 2)
    ensures ok && exp > 0 && Leaves(b.Mag(), exp, c.p, 2) ==> r.sn == 1
  {
    hide Val, Two, KeepsSign, PowerValue;
    r := new Mpz();
    ok := true;
    IsOne(c.p);
    var one := |c.p| == 1 && c.p[0] == 1;
    var zero := IsZero(b.p);
    if !one && !((b.sn == 0 || zero) && exp > 0) {
      ok := PowInt(r, b, exp, c);
    }
  }

  /** The call of mpz_powm, unless the answer is 0 anyway. */
  method RaiseBig(b: Mpz, exp: Mpz, c: Mpz) returns (r: Mpz, ok: bool)
    requires c.Ok() && c.sn == 1 && c.Mag() > 0 && Held(b, |c.p|) && b.Mag() < c.Mag() && exp.Ok() && exp.sn >= 0
    ensures fresh(r) && (192 * |c.p| + 384 <= BIT_LIMIT ==> ok)
    ensures ok ==> r.Ok() && r.Value() == Answer(b.Mag(), exp.Mag(), exp.sn, c.p, 4)
  {
    hide Val, Two, KeepsSign, PowerValue;
    r := new Mpz();
    ok := true;
    IsOne(c.p);
    var one := |c.p| == 1 && c.p[0] == 1;
    var zero := IsZero(b.p);
    if !one && !((b.sn == 0 || zero) && exp.sn > 0) {
      HeldValue(exp, |exp.p|);
      ok := PowBig(r, b, exp, c);
    }
  }

  /** sp_bigint_powmod. */
  method PowMod(base: Mpz, exp: int, mod: Mpz) returns (r: Mpz, o: Outcome)
    requires base.Ok() && mod.Ok() && (mod.sn != 0 ==> mod.Mag() > 0) && -(BASE * BASE) < exp < BASE * BASE
    ensures fresh(r)
    ensures exp < 0 ==> o == RangeError
    ensures exp >= 0 && mod.sn == 0 ==> o == ZeroDivisionError
    ensures exp >= 0 && mod.sn != 0 && 192 * |mod.p| + 384 <= BIT_LIMIT ==> o == Done
    ensures o == Done ==>
      && exp >= 0 && mod.sn != 0 && r.Ok()
      && r.Value() == Signed(Answer(Within(base.sn, base.p, mod.p), exp, exp, mod.p, 2), mod.Mag(), mod.sn < 0)
    ensures o == Done && SafePair(base.p, mod.p, 2) ==>
      mod.Value() != 0 && r.Value() == FloorMod(Power(base.Value(), exp), mod.Value())
    ensures o == Done && mod.sn > 0 && exp > 0 && Leaves(Within(base.sn, base.p, mod.p), exp, mod.p, 2) ==> r.sn == 1
  {
    hide Val, Two, Within, Leaves, Answer, SafePair, FloorMod, Power;
    r := new Mpz();
    if exp < 0 { return r, RangeError; }
    if mod.sn == 0 { return r, ZeroDivisionError; }
    var c := Modulus1(mod);
    var b := BaseWithin(base, c);
    var ok;
    r, ok := RaiseInt(b, exp, c);
    if !ok { return r, RangeError; }
    AnswerBelow(b.Mag(), exp, exp, c.p, 2);
    Finish(r, c, mod.sn < 0);
    if SafePair(base.p, mod.p, 2) { SafeValue(base.sn, base.p, exp, exp, mod.sn, mod.p, 2); }
    return r, Done;
  }

  lemma AnswerBelow(b: nat, e: nat, sign: int, n: seq<Limb>, limbs: nat)
    requires Positive(n) && b < Val(n)
    ensures 0 <= Answer(b, e, sign, n, limbs) < Val(n)
  {
    hide Val, Run, Power;
    if e > 0 { RunBelow(1, b, e, n); }
  }

  lemma {:induction false} RunBelow(t: nat, b: nat, e: nat, n: seq<Limb>)
    requires Positive(n) && (e > 0 || t < Val(n))
    ensures Run(t, b, e, n) < Val(n)
    decreases e
  {
    hide Val, Reduced, Squared;
    if e > 1 {
      RunBelow(Collected(t, b, e, n), Squared(b, n), e / 2, n);
    }
  }

  /** sp_bigint_powmod_big. */
  method PowModBig(base: Mpz, exp: Mpz, mod: Mpz) returns (r: Mpz, o: Outcome)
    requires base.Ok() && exp.Ok() && mod.Ok() && (mod.sn != 0 ==> mod.Mag() > 0)
    ensures fresh(r)
    ensures exp.sn < 0 ==> o == RangeError
    ensures exp.sn >= 0 && mod.sn == 0 ==> o == ZeroDivisionError
    ensures exp.sn >= 0 && mod.sn != 0 && 192 * |mod.p| + 384 <= BIT_LIMIT ==> o == Done
    ensures o == Done ==>
      && exp.sn >= 0 && mod.sn != 0 && r.Ok()
      && r.Value() == Signed(Answer(Within(base.sn, base.p, mod.p), exp.Mag(), exp.sn, mod.p, 4), mod.Mag(), mod.sn < 0)
    ensures o == Done && (exp.sn > 0 ==> exp.Mag() > 0) && SafePair(base.p, mod.p, 4) ==>
      mod.Value() != 0 && r.Value() == FloorMod(Power(base.Value(), exp.Mag()), mod.Value())
  {
    hide Val, Two, Within, Leaves, Answer, SafePair, FloorMod, Power;
    r := new Mpz();
    if exp.sn < 0 { return r, RangeError; }
    if mod.sn == 0 { return r, ZeroDivisionError; }
    var c := Modulus1(mod);
    var b := BaseWithin(base, c);
    var ok;
    r, ok := RaiseBig(b, exp, c);
    if !ok { return r, RangeError; }
    AnswerBelow(b.Mag(), exp.Mag(), exp.sn, c.p, 4);
    Finish(r, c, mod.sn < 0);
    if (exp.sn > 0 ==> exp.Mag() > 0) && SafePair(base.p, mod.p, 4) {
      SafeValue(base.sn, base.p, exp.Mag(), exp.sn, mod.sn, mod.p, 4);
    }
    return r, Done;
  }

  /** The answer as a value, under the same two checks. */
  lemma SafeValue(sn: int, xs: seq<Limb>, e: nat, sign: int, msn: int, n: seq<Limb>, limbs: nat)
    requires Positive(n) && -1 <= sn <= 1 && (sn == 0 ==> Val(xs) == 0) && (msn == 1 || msn == -1)
    requires sign > 0 <==> e > 0
    requires SafePair(xs, n, limbs)
    ensures msn * Val(n) != 0
    ensures Signed(Answer(Within(sn, xs, n), e, sign, n, limbs), Val(n), msn < 0)
      == FloorMod(Power(sn * Val(xs), e), msn * Val(n))
  {
    hide Val, Two, Run, Power, Within, FloorMod, Size, PowerValue;
    PowModSafe(sn, xs, e, n, msn < 0, limbs);
  }

  /** Neither the reduction of the base nor the powers can lose bits. */
  ghost predicate SafePair(xs: seq<Limb>, n: seq<Limb>, limbs: nat)
    requires Positive(n)
  {
    && (|| |n| < 4 || |n| > 16 || |xs| < |n| + 2 || |xs| > 2 * |n|
        || (Val(xs) < Two(2 * Size(n)) && 3 * Val(n) <= Two(Size(n) + 1)))
    && (|n| < 4 || 3 * Val(n) <= Two(Size(n) + 1) || (|n| >= limbs && n[0] % 2 == 1))
  }

  // ----- which answers are right -----

  ghost function Divisor(n: int, negative: bool): (d: int)
    ensures n > 0 ==> d != 0
  {
    if negative then -n else n
  }

  /** The answer is base^exp modulo mod, rounded as Ruby's modulo is. */
  ghost predicate PowRight(sn: int, xs: seq<Limb>, e: nat, sign: int, n: seq<Limb>, negative: bool, limbs: nat)
    requires Positive(n)
  {
    var v := Answer(Within(sn, xs, n), e, sign, n, limbs);
    Signed(v, Val(n), negative) == FloorMod(Power(sn * Val(xs), e), Divisor(Val(n), negative))
  }

  /** The base is congruent to the one taken into range, when mpz_mod is exact. */
  lemma WithinCong(sn: int, xs: seq<Limb>, n: seq<Limb>)
    requires Positive(n) && -1 <= sn <= 1 && (sn == 0 ==> Val(xs) == 0) && Residue(xs, n) == Val(xs) % Val(n)
    ensures Cong(Within(sn, xs, n), sn * Val(xs), Val(n))
  {
    hide Val, Residue, Cong;
    var X: int, N: int := Val(xs), Val(n);
    var q, v := X / N, X % N;
    assert X == N * q + v;
    assert N * q == q * N;
    if sn < 0 {
      assert sn * X == -X;
      var b := Within(sn, xs, n);
      if v > 0 {
        Dist(1, q, N);
        CongWith(b, -X, N, 1 + q);
      } else {
        CongWith(b, -X, N, q);
      }
    } else {
      assert sn * X == X;
      Dist(0, q, N);
      CongWith(v, X, N, -q);
    }
  }

  /** A residue v in [0, n) moved down for a negative modulus is the floored remainder. */
  lemma SignedFloor(v: int, x: int, N: int, negative: bool)
    requires N > 0 && 0 <= v < N
    ensures Signed(v, N, negative) == FloorMod(x, Divisor(N, negative)) <==> v == x % N
  {
    hide FloorMod, FloorDiv;
    var q, r := x / N, x % N;
    assert x == N * q + r;
    if negative {
      assert (-N) * (-q) == N * q;
      assert (-N) * (-q - 1) == N * q + N;
      if r == 0 { FloorLaw(x, -N, -q, 0); } else { FloorLaw(x, -N, -q - 1, r - N); }
    } else {
      FloorLaw(x, N, q, r);
    }
  }

  /** Zero as a base loses nothing. */
  lemma {:induction false} ZeroExact(t: nat, e: nat, n: seq<Limb>)
    requires Positive(n) && t < Val(n)
    ensures AllExact(t, 0, e, n)
    decreases e
  {
    hide Val, Two, Reduced, Exact, Difference, Size;
    if e > 0 {
      ReducedSmall(0, n);
      ZeroKept(n);
      assert t * 0 == 0;
      ZeroExact(Collected(t, 0, e, n), e / 2, n);
    }
  }

  lemma ZeroKept(n: seq<Limb>)
    requires Positive(n)
    ensures Exact(0, n)
  {
    hide Val;
    Q3Below(0, Val(n), Size(n));
  }

  /**
    For every base that mpz_mod reduces exactly, every exponent and every modulus
    above 1: Montgomery's method is right, and the fallback is when its run is.
   */
  lemma PowRightIff(sn: int, xs: seq<Limb>, e: nat, n: seq<Limb>, negative: bool, limbs: nat)
    requires Positive(n) && Val(n) > 1 && -1 <= sn <= 1 && (sn == 0 ==> Val(xs) == 0)
      && Residue(xs, n) == Val(xs) % Val(n)
    ensures PowRight(sn, xs, e, e, n, negative, limbs) <==> ByMontgomery(n, limbs) || Right(Within(sn, xs, n), e, n)
  {
    hide Val, Cong, Run, Power, Residue, Within, FloorMod, Signed, AllExact;
    var b, x, N := Within(sn, xs, n), sn * Val(xs), Val(n);
    var v := Answer(b, e, e, n, limbs);
    AnswerBelow(b, e, e, n, limbs);
    SignedFloor(v, Power(x, e), N, negative);
    WithinCong(sn, xs, n);
    CongPower(b, x, e, N);
    SameRemainder(Power(b, e), Power(x, e), N);
    if b == 0 && e > 0 {
      ZeroExact(1, e, n);
      ExactIsRight(0, e, n);
      ZeroPower(e, N);
    }
    if e == 0 {
      PowerFirst(b);
      RunEnds(1, b, n);
      QuotientIs(1, N, 0, 1);
    }
  }

  lemma ZeroPower(e: nat, N: nat)
    requires e > 0 && N > 0
    ensures Power(0, e) % N == 0
  {
    assert Power(0, e) == 0 * Power(0, e - 1) == 0;
  }

  lemma SameRemainder(x: int, y: int, N: int)
    requires N > 0 && Cong(x, y, N)
    ensures x % N == y % N
  {
    hide Cong;
    CongMod(x, N);
    CongTrans(x % N, x, y, N);
    CongUnique(x % N, y, N);
  }

  /** Under two checks the answer is right for every base, exponent and sign of the modulus. */
  lemma PowModSafe(sn: int, xs: seq<Limb>, e: nat, n: seq<Limb>, negative: bool, limbs: nat)
    requires Positive(n) && -1 <= sn <= 1 && (sn == 0 ==> Val(xs) == 0)
    requires
      || |n| < 4 || |n| > 16 || |xs| < |n| + 2 || |xs| > 2 * |n|
      || (Val(xs) < Two(2 * Size(n)) && 3 * Val(n) <= Two(Size(n) + 1))
    requires |n| < 4 || 3 * Val(n) <= Two(Size(n) + 1) || (|n| >= limbs && n[0] % 2 == 1)
    ensures PowRight(sn, xs, e, e, n, negative, limbs)
  {
    hide Val, Two, Cong, Run, Power, Residue, Within, AllExact, PowRight, Right, Bits;
    ModSafe(xs, n);
    hide Size;
    if Val(n) == 1 {
      OneModulus(sn, xs, e, n, negative, limbs);
    } else {
      PowRightIff(sn, xs, e, n, negative, limbs);
      if !ByMontgomery(n, limbs) {
        CheckedIsExact(1, Within(sn, xs, n), e, n);
        ExactIsRight(Within(sn, xs, n), e, n);
      }
    }
  }

  lemma OneModulus(sn: int, xs: seq<Limb>, e: nat, n: seq<Limb>, negative: bool, limbs: nat)
    requires Positive(n) && Val(n) == 1
    ensures PowRight(sn, xs, e, e, n, negative, limbs)
  {
    hide Val, Power, Within, FloorMod;
    SignedFloor(0, Power(sn * Val(xs), e), 1, negative);
  }

  /** For every such base: right for all exponents if and only if Montgomery is chosen or no run loses bits. */
  lemma PowModExact(sn: int, xs: seq<Limb>, n: seq<Limb>, negative: bool, limbs: nat)
    requires Positive(n) && Val(n) > 1 && -1 <= sn <= 1 && (sn == 0 ==> Val(xs) == 0)
      && Residue(xs, n) == Val(xs) % Val(n)
    ensures (forall e: nat :: PowRight(sn, xs, e, e, n, negative, limbs))
       <==> ByMontgomery(n, limbs) || NothingLost(Within(sn, xs, n), n)
  {
    hide Val, Run, Power, Residue, Within, PowRight, Right, NothingLost;
    var b := Within(sn, xs, n);
    forall e: nat
      ensures PowRight(sn, xs, e, e, n, negative, limbs) <==> ByMontgomery(n, limbs) || Right(b, e, n)
    {
      PowRightIff(sn, xs, e, n, negative, limbs);
    }
    RightIffExact(b, n);
  }

  /** An exponent that is a zero with the sign 1: right if and only if the base is not 0 modulo n. */
  lemma ZeroExponent(sn: int, xs: seq<Limb>, n: seq<Limb>, negative: bool, limbs: nat)
    requires Positive(n) && Val(n) > 1
    ensures PowRight(sn, xs, 0, 1, n, negative, limbs) <==> Within(sn, xs, n) != 0
  {
    hide Val, Within, FloorMod, Signed, Power;
    var N := Val(n);
    PowerFirst(sn * Val(xs));
    QuotientIs(1, N, 0, 1);
    SignedFloor(Answer(Within(sn, xs, n), 0, 1, n, limbs), 1, N, negative);
  }

  // ----- a power that is wrong, and a zero with the sign 1 -----

  const BAD_N: nat := 0xFFFF_FFFF_FFFF_FFFF_2000_0000_0000_0000
  const BAD_B: nat := 0xFFFF_FFFF_FFFF_FFFF_1FFF_FF00_0000_0000

  lemma BadSizes()
    ensures BAD_N == Two(128) - 7 * Two(61) && BAD_B == BAD_N - Two(40)
    ensures Pw(3) <= BAD_B < BAD_N < Pw(4) && Two(127) <= BAD_N < Two(128)
  {
    hide Two, Pw;
    Powers128();
    TwoPw(3);
    TwoPw(4);
    SmallShifts();
  }

  lemma SmallShifts()
    ensures Two(40) == 0x100_0000_0000 && Two(61) == 0x2000_0000_0000_0000
    ensures Two(62) == 2 * Two(61) && Two(80) == Two(40) * Two(40)
  {
    TwoLimb();
    assert Two(1) == 2 && Two(8) == 256;
    assert Two(29) == 0x2000_0000;
    hide Two;
    TwoAdd(32, 8);
    TwoAdd(32, 29);
    TwoAdd(1, 61);
    TwoAdd(40, 40);
  }

  /** The estimate is two too small for the square, and the difference does not fit in 129 bits. */
  lemma BadSquare()
    ensures Difference(BAD_B * BAD_B, BAD_N, 128) == Two(129) + (Two(80) - 7 * Two(62))
    ensures 0 < Two(80) - 7 * Two(62) < Two(80) < BAD_N < Two(129)
  {
    hide Two;
    Powers128();
    SmallShifts();
    var x := BAD_B * BAD_B;
    assert x == 0xFFFF_FFFF_FFFF_FFFE_3FFF_FE00_0000_0000_C400_01C0_0001_0000_0000_0000_0000_0000;
    var a, mu := Quot(x, Two(127)), Quot(Two(256), BAD_N);
    assert a == 0x1_FFFF_FFFF_FFFF_FFFC_7FFF_FC00_0000_0001;
    assert mu == 0x1_0000_0000_0000_0000_E000_0000_0000_0000;
    var q := Quot(Prod(a, mu), Two(129));
    assert q == 0xFFFF_FFFF_FFFF_FFFF_1FFF_FDFF_FFFF_FFFE;
    assert Q3(x, BAD_N, 128) == q;
    assert Difference(x, BAD_N, 128) == 0x2_0000_0000_0000_FFFE_4000_0000_0000_0000;
  }

  lemma SizeIs(n: seq<Limb>, k: nat)
    requires Positive(n) && k > 0 && Two(k - 1) <= Val(n) < Two(k)
    ensures Size(n) == k
  {
    hide Val, Two, Size;
    var s := Size(n);
    if s < k { TwoMono(s, k - 1); assert false; }
    if s > k { TwoMono(k, s - 1); assert false; }
  }

  /** (n - 2^40)^2 mod n for n = 2^128 - 7 * 2^61: 2^80 - 7 * 2^62 instead of 2^80. */
  lemma SquareWrong(n: seq<Limb>)
    requires Positive(n) && Val(n) == BAD_N && |n| == 4
    ensures Run(1, BAD_B, 2, n) == Two(80) - 7 * Two(62)
    ensures Power(BAD_B, 2) % Val(n) == Two(80) && !Right(BAD_B, 2, n)
  {
    hide Val, Two, Difference, Size, Power, Run;
    BadSizes();
    SizeIs(n, 128);
    BadSquare();
    TwoBits(BAD_B, n);
    PowerStep(BAD_B, 1);
    PowerFirst(BAD_B);
    TrueSquare();
    var r := Two(80) - 7 * Two(62);
    QuotientIs(Two(129) + r, Two(129), 1, r);
    QuotientIs(r, BAD_N, 0, r);
  }

  lemma TrueSquare()
    ensures (BAD_B * BAD_B) % BAD_N == Two(80)
  {
    hide Two;
    SmallShifts();
    QuotientIs(BAD_B * BAD_B, BAD_N, BAD_N - 2 * Two(40), Two(80));
  }

  /** For the exponent 2 the answer is the reduced square. */
  lemma TwoBits(b: nat, n: seq<Limb>)
    requires Positive(n)
    ensures b * b >= 0 && Run(1, b, 2, n) == Reduced(b * b, n)
  {
    hide Val, Reduced;
    NonNeg(b, b);
    OneBit(1, b, 0, 1, n);
    OneStep(1, Squared(b, n), n);
    ReducedSmall(Squared(b, n), n);
  }

  /** Integer#pow is wrong for base n - 2^40, exponent 2 and modulus n = 2^128 - 7 * 2^61. */
  lemma PowModFails(limbs: nat)
    ensures var xs, n := LimbsOf(BAD_B), LimbsOf(BAD_N); !PowRight(1, xs, 2, 2, n, false, limbs)
  {
    hide Val, Two, Pw, LimbsOf, PowRight, Right, Residue, Within;
    var xs, n := LimbsOf(BAD_B), LimbsOf(BAD_N);
    BadSizes();
    LimbCount(xs, 3);
    LimbCount(n, 3);
    ParityOf(n);
    SameLength(xs, n);
    SquareWrong(n);
    PowRightIff(1, xs, 2, n, false, limbs);
  }

  /** A base below the modulus is taken as it is. */
  lemma SameLength(xs: seq<Limb>, n: seq<Limb>)
    requires Positive(n) && Val(xs) < Val(n) && |xs| <= |n|
    ensures Residue(xs, n) == Val(xs) % Val(n) == Val(xs) && Within(1, xs, n) == Val(xs)
  {
    hide Val;
    QuotientIs(Val(xs), Val(n), 0, Val(xs));
  }

  /** (3 * 2^32)^3 is nine times 3 * 2^96: the last reduction subtracts once and leaves a zero with the sign 1. */
  lemma ZeroWithSign(n: seq<Limb>)
    requires Positive(n) && Val(n) == 3 * Two(96) && |n| == 4
    ensures Leaves(3 * Two(32), 3, n, 2) && Answer(3 * Two(32), 3, 3, n, 2) == 0
  {
    hide Val, Two, Size, Reduced, Last, Run, EndsCorrected;
    ParityOf(n);
    EvenModulus();
    CubeRun(n);
    CubeCorrected(n);
  }

  lemma EvenModulus()
    ensures (3 * Two(96)) % 2 == 0 && Two(96) > 0
  {
    hide Two;
    TwoStep(95);
  }

  lemma CubePowers()
    ensures Two(32) == BASE && Two(64) == BASE * BASE && Two(96) == BASE * BASE * BASE
    ensures Two(97) == 2 * Two(96) && Two(98) == 4 * Two(96) && Two(99) == 8 * Two(96)
  {
    TwoLimb();
    TwoAdd(32, 32);
    TwoAdd(64, 32);
  }

  /** The run: t is the base, b its square, and their product is reduced. */
  lemma CubeRun(n: seq<Limb>)
    requires Positive(n) && Val(n) == 3 * Two(96) && |n| == 4
    ensures Last(1, 3 * Two(32), 3, n) == 27 * Two(96)
    ensures Run(1, 3 * Two(32), 3, n) == Reduced(27 * Two(96), n)
  {
    hide Val, Two, Size, Reduced;
    CubePowers();
    var b: nat, n2: nat := 3 * Two(32), 9 * Two(64);
    BitStepped(1, b, 3, n);
    ReducedSmall(b, n);
    assert b * b == n2;
    ReducedSmall(n2, n);
    assert b * n2 == 27 * Two(96);
    BitStepped(b, n2, 1, n);
  }

  lemma CubeCorrected(n: seq<Limb>)
    requires Positive(n) && Val(n) == 3 * Two(96) && |n| == 4
    ensures EndsCorrected(27 * Two(96), n) && Reduced(27 * Two(96), n) == 0
  {
    hide Val, Two, Size;
    CubePowers();
    SizeIs(n, 98);
    CubeDifference();
    var m := Val(n);
    QuotientIs(m, Two(99), 0, m);
    QuotientIs(m, m, 1, 0);
  }

  lemma CubeDifference()
    ensures Two(96) > 0 && Difference(27 * Two(96), 3 * Two(96), 98) == 3 * Two(96)
  {
    hide Two;
    CubePowers();
    TwoAdd(98, 98);
    var x, m := 27 * Two(96), 3 * Two(96);
    var a, mu := Quot(x, Two(97)), Quot(Two(196), m);
    assert a == 13;
    assert mu == 0x5_5555_5555_5555_5555_5555_5555;
    assert Quot(Prod(a, mu), Two(99)) == 8;
    assert Q3(x, m, 98) == 8;
  }
}
