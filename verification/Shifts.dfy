/** Powers of two and the limb shifts (lib/sp_bigint.c:2452-2508). */
module Shifts {
  import opened Limbs
  import opened ToomSteps

  /** 2 to the e-th power. */
  function Two(e: nat): (r: nat)
    ensures r > 0
  {
    if e == 0 then 1 else 2 * Two(e - 1)
  }

  lemma {:induction false} TwoAdd(a: nat, b: nat)
    ensures Two(a + b) == Two(a) * Two(b)
  {
    if a > 0 {
      TwoAdd(a - 1, b);
      Assoc(2, Two(a - 1), Two(b));
    }
  }

  lemma TwoLimb()
    ensures Two(32) == BASE
  {
    assert Two(8) == 256;
    TwoAdd(8, 8);
    TwoAdd(16, 16);
  }

  lemma {:induction false} TwoPw(n: nat)
    ensures Two(32 * n) == Pw(n)
  {
    if n > 0 {
      TwoPw(n - 1);
      TwoAdd(32, 32 * (n - 1));
      TwoLimb();
    }
  }

  lemma {:induction false} TwoMono(a: nat, b: nat)
    requires a <= b
    ensures Two(a) <= Two(b)
    ensures a < b ==> 2 * Two(a) <= Two(b)
    decreases b
  {
    if a < b {
      TwoMono(a, b - 1);
    }
  }

  /** The complementary shift of a limb: 2^cnt * 2^(32 - cnt) is the base. */
  lemma TwoSplit(cnt: nat)
    requires cnt <= 32
    ensures Two(cnt) * Two(32 - cnt) == BASE
  {
    TwoAdd(cnt, 32 - cnt);
    TwoLimb();
  }

  /** What limb i - 1 pushes into limb i when shifted left by q = 2^cnt. */
  ghost function Spill(s: seq<Limb>, i: nat, q: nat): nat
    requires i <= |s|
  {
    if i == 0 then 0 else
      NonNeg(s[i - 1], q);
      s[i - 1] * q / BASE
  }

  ghost predicate Up(s: seq<Limb>, t: seq<Limb>, q: nat) {
    |s| == |t| && forall i :: 0 <= i < |s| ==> t[i] == s[i] * q % BASE + Spill(s, i, q)
  }

  lemma UpDigit(vs: int, vt: int, sp: int, si: int, ti: int, q: int, p: int)
    requires vt + sp * p == vs * q && ti == si * q % BASE + sp
    ensures vt + ti * p + (si * q / BASE) * (BASE * p) == (vs + si * p) * q
  {
    var lo, hi := si * q % BASE, si * q / BASE;
    assert si * q == hi * BASE + lo;
    Dist(hi * BASE, lo, p);
    Dist(lo, sp, p);
    Assoc(hi, BASE, p);
    Dist(vs, si * p, q);
    assert (si * p) * q == (si * q) * p;
  }

  lemma {:induction false} UpVal(s: seq<Limb>, t: seq<Limb>, q: nat, i: nat)
    requires Up(s, t, q) && i <= |s|
    ensures Val(t[..i]) + Spill(s, i, q) * Pw(i) == Val(s[..i]) * q
  {
    hide Val;
    if i == 0 {
      ValEmpty(s[..0]);
      ValEmpty(t[..0]);
    } else {
      var k := i - 1;
      UpVal(s, t, q, k);
      ValTake(s, k);
      ValTake(t, k);
      UpDigit(Val(s[..k]), Val(t[..k]), Spill(s, k, q), s[k], t[k], q, Pw(k));
    }
  }

  /** A shifted limb's overflow is below q. */
  lemma SpillBound(d: nat, q: nat)
    requires d < BASE && q > 0
    ensures 0 <= d * q / BASE < q
    ensures 0 <= d * q % BASE
  {
    NonNeg(d, q);
    MulLt(d, BASE, q);
  }

  /** Low bits cleared by a left shift leave room for the bits from below. */
  lemma OrIsPlus(d: nat, q: nat, c: nat, sp: nat)
    requires q > 0 && q * c == BASE && d < BASE && sp < q
    ensures d * q % BASE + sp < BASE
  {
    NonNeg(d, q);
    var k := d / c;
    assert c > 0;
    assert d == c * k + d % c;
    assert d * q == k * BASE + (d % c) * q by {
      Dist(c * k, d % c, q);
      assert (c * k) * q == k * (q * c);
    }
    NonNeg(d % c, q);
    MulLe(d % c, c - 1, q);
    Dist(c, 1, q);
    ModUnique(d * q, k, (d % c) * q);
  }

  /** ((d << cnt) | (low >> (32 - cnt))) & DIG_MASK: the two parts share no bit. */
  function ShlLimb(d: Limb, low: Limb, cnt: nat): Limb
    requires 0 < cnt < 32
  {
    var q := Two(cnt);
    TwoSplit(cnt);
    SpillBound(low, q);
    SpillBound(d, q);
    OrIsPlus(d, q, Two(32 - cnt), low * q / BASE);
    d * q % BASE + low * q / BASE
  }

  /** The limbs a left shift writes. */
  ghost predicate Shifted(A: seq<Limb>, t: seq<Limb>, r: nat, from: nat, cnt: nat)
    requires 0 < cnt < 32 && r + |A| <= |t|
  {
    forall k :: r + from <= k < r + |A| ==> t[k] == ShlLimb(A[k - r], if k == r then 0 else A[k - r - 1], cnt)
  }

  lemma TopSpill(d: Limb, cnt: nat)
    requires 0 < cnt < 32
    ensures 0 <= d * Two(cnt) / BASE < BASE
  {
    SpillBound(d, Two(cnt));
    TwoMono(cnt, 32);
    TwoLimb();
  }

  lemma NoneShifted(A: seq<Limb>, t: seq<Limb>, r: nat, cnt: nat)
    requires 0 < cnt < 32 && r + |A| <= |t|
    ensures Shifted(A, t, r, |A|, cnt)
  {
  }

  lemma ShiftedStep(A: seq<Limb>, s: seq<Limb>, t: seq<Limb>, r: nat, i: nat, cnt: nat)
    requires 0 < cnt < 32 && i < |A| && r + |A| <= |s| && Shifted(A, s, r, i + 1, cnt)
    requires t == s[r + i := ShlLimb(A[i], if i == 0 then 0 else A[i - 1], cnt)]
    ensures Shifted(A, t, r, i, cnt)
  {
    hide ShlLimb;
  }

  /** mpn_lshift on n > 0 limbs; the walk is high to low, so r may equal a. */
  method LShift(m: array<Limb>, r: nat, a: nat, n: nat, cnt: nat) returns (carry: Limb)
    requires 0 < cnt < 32 && n > 0 && r + n <= m.Length && a + n <= m.Length
    requires r == a || Apart(r, n, a, n)
    modifies m
    ensures Num(m[..], r, n) + carry * Pw(n) == old(Num(m[..], a, n)) * Two(cnt)
    ensures Same(old(m[..]), m[..], r, n)
  {
    hide Num, Val, Pw, Two, ShlLimb, Shifted;
    ghost var M := m[..];
    ghost var A := M[a..a + n];
    NoneShifted(A, M, r, cnt);
    TopSpill(m[a + n - 1], cnt);
    carry := m[a + n - 1] * Two(cnt) / BASE;
    var i := n - 1;
    while i > 0
      invariant 0 <= i <= n - 1
      invariant Same(M, m[..], r + i + 1, n - i - 1)
      invariant Shifted(A, m[..], r, i + 1, cnt)
    {
      ghost var S := m[..];
      assert m[a + i] == A[i] && m[a + i - 1] == A[i - 1];
      m[r + i] := ShlLimb(m[a + i], m[a + i - 1], cnt);
      ShiftedStep(A, S, m[..], r, i, cnt);
      i := i - 1;
    }
    ghost var S := m[..];
    assert m[a] == A[0];
    m[r] := ShlLimb(m[a], 0, cnt);
    ShiftedStep(A, S, m[..], r, 0, cnt);
    UpDone(M, m[..], a, r, n, cnt);
  }

  lemma UpDone(M: seq<Limb>, T: seq<Limb>, a: nat, r: nat, n: nat, cnt: nat)
    requires 0 < n && a + n <= |M| && r + n <= |T| && 0 < cnt < 32
    requires Shifted(M[a..a + n], T, r, 0, cnt)
    ensures Num(T, r, n) + (M[a + n - 1] * Two(cnt) / BASE) * Pw(n) == Num(M, a, n) * Two(cnt)
  {
    hide Val, Pw, Two;
    var A, D, q := M[a..a + n], T[r..r + n], Two(cnt);
    forall k | 0 <= k < n ensures D[k] == A[k] * q % BASE + Spill(A, k, q) {
      assert D[k] == T[r + k];
    }
    assert A[..n] == A && D[..n] == D;
    UpVal(A, D, q, n);
  }

  lemma DownRoom(d: nat, next: nat, q: nat, c: nat)
    requires q > 0 && q * c == BASE && d < BASE && next < q
    ensures 0 <= d / q + next * c < BASE
  {
    assert d / q < c by {
      if d / q >= c { MulLe(c, d / q, q); assert false; }
    }
    NonNeg(next, c);
    MulLe(next, q - 1, c);
    Dist(q, 1, c);
  }

  /** (d << (32 - cnt)) & DIG_MASK: the low bits of d at the top of a limb. */
  lemma ShiftedOut(d: nat, q: nat, c: nat)
    requires q > 0 && q * c == BASE && d < BASE
    ensures 0 <= d * c && d * c % BASE == d % q * c && d % q * c < BASE
  {
    var k, r := d / q, d % q;
    assert d == q * k + r;
    Dist(q * k, r, c);
    assert (q * k) * c == k * BASE;
    NonNeg(r, c);
    NonNeg(d, c);
    MulLe(r, q - 1, c);
    Dist(q, 1, c);
    ModUnique(d * c, k, r * c);
  }

  /** mpn_rshift on n > 0 limbs; the walk is low to high, so r may equal a. */
  method RShift(m: array<Limb>, r: nat, a: nat, n: nat, cnt: nat) returns (out: Limb)
    requires 0 < cnt < 32 && n > 0 && r + n <= m.Length && a + n <= m.Length
    requires r == a || Apart(r, n, a, n)
    modifies m
    ensures Num(m[..], r, n) == old(Num(m[..], a, n)) / Two(cnt)
    ensures out == old(Num(m[..], a, n)) % Two(cnt) * Two(32 - cnt)
    ensures Same(old(m[..]), m[..], r, n)
  {
    hide Num, Val, Pw;
    ghost var M := m[..];
    ghost var A := M[a..a + n];
    var q, c := Two(cnt), Two(32 - cnt);
    TwoSplit(cnt);
    ShiftedOut(m[a], q, c);
    out := m[a] * c % BASE;
    var i := 0;
    while i < n - 1
      invariant 0 <= i <= n - 1
      invariant Same(M, m[..], r, i)
      invariant forall k :: r <= k < r + i ==> m[k] == A[k - r] / q + Rem(A, k - r + 1, q) * c
    {
      var d, high := m[a + i], m[a + i + 1];
      assert d == A[i] && high == A[i + 1];
      DownRoom(d, high % q, q, c);
      m[r + i] := d / q + high % q * c;
      i := i + 1;
    }
    assert m[a + n - 1] == A[n - 1];
    DownRoom(m[a + n - 1], 0, q, c);
    m[r + n - 1] := m[a + n - 1] / q;
    DownDone(M, m[..], a, r, n, q, c);
  }

  lemma DownDone(M: seq<Limb>, T: seq<Limb>, a: nat, r: nat, n: nat, q: nat, c: nat)
    requires a + n <= |M| && r + n <= |T| && q > 0 && q * c == BASE
    requires forall k :: r <= k < r + n ==> T[k] == M[a..a + n][k - r] / q + Rem(M[a..a + n], k - r + 1, q) * c
    ensures Num(T, r, n) == Num(M, a, n) / q && (n > 0 ==> Num(M, a, n) % q == M[a] % q)
  {
    hide Val, Pw, Rem;
    var A, D := M[a..a + n], T[r..r + n];
    forall k | 0 <= k < n ensures D[k] == A[k] / q + Rem(A, k + 1, q) * c {
      assert D[k] == T[r + k];
    }
    assert A[..n] == A && D[..n] == D;
    DownVal(A, D, q, c, n);
    RemEnd(A, q);
    RemBound(A, q);
    QuotientIs(Val(A), q, Val(D), Rem(A, 0, q));
    LowRem(A, q);
  }

  lemma LowRem(s: seq<Limb>, q: nat)
    requires q > 0
    ensures s != [] ==> Rem(s, 0, q) == s[0] % q
  {
  }

  lemma RemBound(s: seq<Limb>, q: nat)
    requires q > 0
    ensures Rem(s, 0, q) < q
  {
  }

  /** Division is determined by its defining equation. */
  lemma QuotientIs(x: nat, q: nat, k: nat, r: nat)
    requires q > 0 && x == q * k + r && r < q
    ensures x / q == k && x % q == r
  {
    var d := x / q;
    assert x == q * d + x % q;
    if d > k {
      MulLe(k + 1, d, q);
      Dist(k, 1, q);
      assert false;
    }
    if d < k {
      MulLe(d + 1, k, q);
      Dist(d, 1, q);
      assert false;
    }
  }
}
