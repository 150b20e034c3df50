/**
  Little-endian limb numerals (lib/sp_bigint.c): a limb is a 32-bit digit, and
  the raw-limb routines work on one flat limb memory in which a pointer is an
  index. `Num(s, o, n)` is the number stored in the n limbs at index o.
 */
module Limbs {
  const BASE: int := 0x1_0000_0000

  type Limb = x: int | 0 <= x < BASE witness 0

  /** BASE to the n-th power. */
  function Pw(n: nat): (r: nat)
    ensures r > 0
  {
    if n == 0 then 1 else BASE * Pw(n - 1)
  }

  /** The value of a limb string, least significant limb first. */
  function Val(s: seq<Limb>): (v: nat)
  {
    if s == [] then 0
    else
      var n := |s| - 1;
      NonNeg(s[n], Pw(n));
      Val(s[..n]) + s[n] * Pw(n)
  }

  /** The number held by the n limbs that start at index o. */
  function Num(s: seq<Limb>, o: nat, n: nat): (v: nat)
    requires o + n <= |s|
  {
    Val(s[o..o + n])
  }

  /** s and t differ at most inside [lo, lo + n). */
  ghost predicate Same(s: seq<Limb>, t: seq<Limb>, lo: nat, n: nat) {
    |s| == |t| && forall k :: 0 <= k < |s| && (k < lo || k >= lo + n) ==> s[k] == t[k]
  }

  /** Two changes inside one range. */
  lemma SameJoin(s: seq<Limb>, t: seq<Limb>, u: seq<Limb>, a: nat, an: nat, b: nat, bn: nat, lo: nat, n: nat)
    requires Same(s, t, a, an) && Same(t, u, b, bn)
    requires lo <= a && a + an <= lo + n && lo <= b && b + bn <= lo + n
    ensures Same(s, u, lo, n)
  {
  }

  /** The two index ranges do not meet. */
  predicate Apart(a: nat, an: nat, b: nat, bn: nat) {
    a + an <= b || b + bn <= a
  }

  // ----- arithmetic steps -----

  /** A product kept as one term while its factors are being moved around. */
  ghost function Times(a: int, b: int): int {
    a * b
  }

  lemma NonNeg(a: int, b: int)
    requires a >= 0 && b >= 0
    ensures a * b >= 0
  {
  }

  lemma MulLe(a: int, b: int, c: int)
    requires a <= b && c >= 0
    ensures a * c <= b * c
  {
  }

  lemma MulLt(a: int, b: int, c: int)
    requires a < b && c > 0
    ensures a * c < b * c
  {
  }

  lemma Dist(a: int, b: int, c: int)
    ensures (a + b) * c == a * c + b * c
    ensures (a - b) * c == a * c - b * c
  {
  }

  lemma DistL(c: int, a: int, b: int)
    ensures c * (a + b) == c * a + c * b
    ensures c * (a - b) == c * a - c * b
  {
  }

  lemma Assoc(a: int, b: int, c: int)
    ensures a * (b * c) == (a * b) * c
  {
  }

  /** One digit of a carry chain: d is what the digit position receives. */
  lemma CarryStep(x: int, c: int, p: int, t: int, d: int, lo: int, hi: int)
    requires x + c * p == t
    requires d + c == lo + hi * BASE
    ensures x + lo * p + hi * (BASE * p) == t + d * p
  {
    assert lo == d + c - hi * BASE;
    Dist(d + c, hi * BASE, p);
    Dist(d, c, p);
    Assoc(hi, BASE, p);
  }

  lemma WindowStep(low: int, wt: int, ws: int, h: int, p: int)
    ensures (low + (wt + h) * p) - (low + (ws + h) * p) == (wt - ws) * p
  {
  }

  lemma {:induction false} PwAdd(a: nat, b: nat)
    ensures Pw(a + b) == Pw(a) * Pw(b)
  {
    if a > 0 {
      PwAdd(a - 1, b);
      Assoc(BASE, Pw(a - 1), Pw(b));
    }
  }

  lemma {:induction false} PwMono(a: nat, b: nat)
    requires a <= b
    ensures Pw(a) <= Pw(b)
    ensures a < b ==> BASE * Pw(a) <= Pw(b)
    decreases b
  {
    if a < b {
      PwMono(a, b - 1);
    }
  }

  // ----- values -----

  lemma ValSnoc(s: seq<Limb>, x: Limb)
    ensures Val(s + [x]) == Val(s) + x * Pw(|s|)
  {
    assert (s + [x])[..|s|] == s;
  }

  lemma ValEmpty(s: seq<Limb>)
    ensures s == [] ==> Val(s) == 0
  {
  }

  lemma ValTake(s: seq<Limb>, k: nat)
    requires k < |s|
    ensures Val(s[..k + 1]) == Val(s[..k]) + s[k] * Pw(k)
  {
    assert s[..k + 1] == s[..k] + [s[k]];
    ValSnoc(s[..k], s[k]);
  }

  lemma NumAll(s: seq<Limb>)
    ensures Num(s, 0, |s|) == Val(s)
  {
    assert s[0..|s|] == s;
  }

  lemma NumZero(s: seq<Limb>, o: nat)
    requires o <= |s|
    ensures Num(s, o, 0) == 0
  {
  }

  /** The digit at index o + n extends the number below it. */
  lemma NumStep(s: seq<Limb>, o: nat, n: nat)
    requires o + n < |s|
    ensures Num(s, o, n + 1) == Num(s, o, n) + s[o + n] * Pw(n)
  {
    assert s[o..o + n + 1] == s[o..o + n] + [s[o + n]];
    ValSnoc(s[o..o + n], s[o + n]);
  }

  lemma {:induction false} ValBound(s: seq<Limb>)
    ensures Val(s) < Pw(|s|)
  {
    if s != [] {
      var n := |s| - 1;
      ValBound(s[..n]);
      MulLe(s[n], BASE - 1, Pw(n));
    }
  }

  lemma NumBound(s: seq<Limb>, o: nat, n: nat)
    requires o + n <= |s|
    ensures Num(s, o, n) < Pw(n)
  {
    ValBound(s[o..o + n]);
  }

  lemma {:induction false} ValAppend(s: seq<Limb>, t: seq<Limb>)
    ensures Val(s + t) == Val(s) + Val(t) * Pw(|s|)
    decreases |t|
  {
    if t == [] {
      assert s + t == s;
    } else {
      var n := |t| - 1;
      assert s + t == (s + t[..n]) + [t[n]];
      ValSnoc(s + t[..n], t[n]);
      ValAppend(s, t[..n]);
      PwAdd(n, |s|);
      Assoc(t[n], Pw(n), Pw(|s|));
      Dist(Val(t[..n]), t[n] * Pw(n), Pw(|s|));
    }
  }

  lemma ValCons(d: Limb, s: seq<Limb>)
    ensures Val([d] + s) == d + BASE * Val(s)
  {
    ValAppend([d], s);
    assert [d][..0] == [];
    assert Pw(1) == BASE;
  }

  lemma NumSplit(s: seq<Limb>, o: nat, a: nat, b: nat)
    requires o + a + b <= |s|
    ensures Num(s, o, a + b) == Num(s, o, a) + Num(s, o + a, b) * Pw(a)
  {
    assert s[o..o + (a + b)] == s[o..o + a] + s[o + a..o + a + b];
    ValAppend(s[o..o + a], s[o + a..o + a + b]);
  }

  lemma NumKeep(s: seq<Limb>, t: seq<Limb>, lo: nat, n: nat, o: nat, len: nat)
    requires Same(s, t, lo, n) && o + len <= |s|
    requires Apart(lo, n, o, len)
    ensures Num(s, o, len) == Num(t, o, len)
  {
    assert s[o..o + len] == t[o..o + len];
  }

  lemma ValWindow(a: seq<Limb>, w: seq<Limb>, v: seq<Limb>, h: seq<Limb>)
    requires |w| == |v|
    ensures Val(a + (w + h)) - Val(a + (v + h)) == (Val(w) - Val(v)) * Pw(|a|)
  {
    hide Val, Pw;
    ValAppend(a, w + h);
    ValAppend(a, v + h);
    ValAppend(w, h);
    ValAppend(v, h);
    WindowStep(Val(a), Val(w), Val(v), Val(h) * Pw(|w|), Pw(|a|));
  }

  /** A change inside a window changes the whole by that much, scaled. */
  lemma NumWindow(s: seq<Limb>, t: seq<Limb>, o: nat, len: nat, k: nat, n: nat)
    requires |s| == |t| && o + len <= |s| && k + n <= len
    requires forall i :: o <= i < o + k || o + k + n <= i < o + len ==> s[i] == t[i]
    ensures Num(t, o, len) - Num(s, o, len) == (Num(t, o + k, n) - Num(s, o + k, n)) * Pw(k)
  {
    hide Val, Pw;
    var a, h := s[o..o + k], s[o + k + n..o + len];
    var w, v := t[o + k..o + k + n], s[o + k..o + k + n];
    assert a == t[o..o + k];
    assert h == t[o + k + n..o + len];
    assert s[o + k..o + len] == v + h;
    assert t[o + k..o + len] == w + h;
    assert s[o..o + len] == a + s[o + k..o + len];
    assert t[o..o + len] == a + t[o + k..o + len];
    ValWindow(a, w, v, h);
  }

  lemma {:induction false} ValZeros(s: seq<Limb>)
    requires forall i :: 0 <= i < |s| ==> s[i] == 0
    ensures Val(s) == 0
  {
    if s != [] {
      ValZeros(s[..|s| - 1]);
    }
  }

  /** High zero limbs do not count. */
  lemma NumTrim(s: seq<Limb>, o: nat, n: nat, m: nat)
    requires n <= m && o + m <= |s|
    requires forall i :: o + n <= i < o + m ==> s[i] == 0
    ensures Num(s, o, m) == Num(s, o, n)
  {
    NumSplit(s, o, n, m - n);
    ValZeros(s[o + n..o + m]);
  }

  /** A number below Pw(n) has only zero limbs from index n on. */
  lemma {:induction false} ValSmall(s: seq<Limb>, n: nat)
    requires n <= |s| && Val(s) < Pw(n)
    ensures forall i :: n <= i < |s| ==> s[i] == 0
    decreases |s|
  {
    if |s| > n {
      var k := |s| - 1;
      PwMono(n, k);
      if s[k] > 0 {
        MulLe(1, s[k], Pw(k));
        assert false;
      }
      ValSmall(s[..k], n);
    }
  }

  /** A nonzero top limb makes the number at least the power below it. */
  lemma ValTop(s: seq<Limb>)
    requires s != [] && s[|s| - 1] != 0
    ensures Val(s) >= Pw(|s| - 1)
  {
    MulLe(1, s[|s| - 1], Pw(|s| - 1));
  }
}
