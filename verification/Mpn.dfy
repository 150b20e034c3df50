/**
  The raw-limb primitives of lib/sp_bigint.c on one flat limb memory `m`; a
  pointer argument is an index into m. Every contract gives the value written
  and, through `Same`, promises that nothing else in memory changes.
 */
module Mpn {
  import opened Limbs

  /** A forward walk that reads n limbs at a and writes n limbs at r is safe. */
  predicate Forward(r: nat, a: nat, n: nat) {
    r <= a || a + n <= r
  }

  /** Writing the next digit of a number under construction. */
  lemma NumPut(s: seq<Limb>, t: seq<Limb>, o: nat, i: nat)
    requires Same(s, t, o + i, 1) && o + i < |s|
    ensures Num(t, o, i + 1) == Num(s, o, i) + t[o + i] * Pw(i)
  {
    NumStep(t, o, i);
    NumKeep(s, t, o + i, 1, o, i);
  }

  method Zero(m: array<Limb>, r: nat, n: nat)
    requires r + n <= m.Length
    modifies m
    ensures Same(old(m[..]), m[..], r, n)
    ensures forall k :: r <= k < r + n ==> m[k] == 0
    ensures Num(m[..], r, n) == 0
  {
    for i := 0 to n
      invariant Same(old(m[..]), m[..], r, i)
      invariant forall k :: r <= k < r + i ==> m[k] == 0
    {
      m[r + i] := 0;
    }
    ValZeros(m[..][r..r + n]);
  }

  method CopyI(m: array<Limb>, r: nat, a: nat, n: nat)
    requires r + n <= m.Length && a + n <= m.Length && Apart(r, n, a, n)
    modifies m
    ensures Same(old(m[..]), m[..], r, n)
    ensures m[..][r..r + n] == old(m[..])[a..a + n]
    ensures Num(m[..], r, n) == old(Num(m[..], a, n))
  {
    for i := 0 to n
      invariant Same(old(m[..]), m[..], r, i)
      invariant m[..][r..r + i] == old(m[..])[a..a + i]
    {
      m[r + i] := m[a + i];
    }
  }

  method AddN(m: array<Limb>, r: nat, a: nat, b: nat, n: nat) returns (carry: Limb)
    requires r + n <= m.Length && a + n <= m.Length && b + n <= m.Length
    requires Forward(r, a, n) && Forward(r, b, n)
    modifies m
    ensures carry <= 1
    ensures Num(m[..], r, n) + carry * Pw(n) == old(Num(m[..], a, n) + Num(m[..], b, n))
    ensures Same(old(m[..]), m[..], r, n)
  {
    hide Num, Val;
    ghost var M := m[..];
    carry := 0;
    NumZero(M, r);
    NumZero(M, a);
    NumZero(M, b);
    for i := 0 to n
      invariant carry <= 1
      invariant Num(m[..], r, i) + carry * Pw(i) == Num(M, a, i) + Num(M, b, i)
      invariant Same(M, m[..], r, i)
    {
      ghost var S, c := m[..], carry;
      var ai: int, bi: int := m[a + i], m[b + i];
      var sum: int := carry + (ai + bi);
      m[r + i] := sum % BASE;
      carry := sum / BASE;
      NumPut(S, m[..], r, i);
      NumStep(M, a, i);
      NumStep(M, b, i);
      Dist(ai, bi, Pw(i));
      CarryStep(Num(S, r, i), c, Pw(i), Num(M, a, i) + Num(M, b, i), ai + bi, sum % BASE, carry);
    }
  }

  /** carry added into the limbs [k, end): the chain stops once it is absorbed. */
  method Propagate(m: array<Limb>, k: nat, end: nat, carry0: Limb) returns (carry: Limb)
    requires k <= end <= m.Length
    modifies m
    ensures Num(m[..], k, end - k) + carry * Pw(end - k) == old(Num(m[..], k, end - k)) + carry0
    ensures Same(old(m[..]), m[..], k, end - k)
  {
    hide Num, Val;
    ghost var M := m[..];
    carry := carry0;
    NumZero(M, k);
    var i := k;
    while carry != 0 && i < end
      invariant k <= i <= end
      invariant Num(m[..], k, i - k) + carry * Pw(i - k) == Num(M, k, i - k) + carry0
      invariant Same(M, m[..], k, i - k)
    {
      ghost var S, c := m[..], carry;
      var sum: int := m[i] + carry;
      m[i] := sum % BASE;
      carry := sum / BASE;
      NumPut(S, m[..], k, i - k);
      NumStep(M, k, i - k);
      CarryStep(Num(S, k, i - k), c, Pw(i - k), Num(M, k, i - k) + carry0, M[i], sum % BASE, carry);
      i := i + 1;
    }
    PropagateRest(M, m[..], k, i - k, end - k, carry0, carry);
  }

  lemma PropagateRest(s: seq<Limb>, t: seq<Limb>, k: nat, i: nat, n: nat, c0: int, c: int)
    requires |s| == |t| && i <= n && k + n <= |s|
    requires Same(s, t, k, i)
    requires Num(t, k, i) + c * Pw(i) == Num(s, k, i) + c0
    requires c == 0 || i == n
    ensures Num(t, k, n) + c * Pw(n) == Num(s, k, n) + c0
    ensures Same(s, t, k, n)
  {
    hide Num, Val;
    NumWindow(s, t, k, n, 0, i);
  }

  /** mpn_add: a of an limbs plus b of bn limbs, an >= bn. */
  method Add(m: array<Limb>, r: nat, a: nat, an: nat, b: nat, bn: nat) returns (carry: Limb)
    requires bn <= an && r + an <= m.Length && a + an <= m.Length && b + bn <= m.Length
    requires Forward(r, a, an) && Forward(r, b, bn)
    modifies m
    ensures carry <= 1
    ensures Num(m[..], r, an) + carry * Pw(an) == old(Num(m[..], a, an) + Num(m[..], b, bn))
    ensures Same(old(m[..]), m[..], r, an)
  {
    hide Num, Val;
    ghost var M := m[..];
    carry := AddN(m, r, a, b, bn);
    for i := bn to an
      invariant carry <= 1
      invariant Num(m[..], r, i) + carry * Pw(i) == Num(M, a, i) + Num(M, b, bn)
      invariant Same(M, m[..], r, i)
    {
      ghost var S, c := m[..], carry;
      var sum: int := carry + m[a + i];
      m[r + i] := sum % BASE;
      carry := sum / BASE;
      NumPut(S, m[..], r, i);
      NumStep(M, a, i);
      CarryStep(Num(S, r, i), c, Pw(i), Num(M, a, i) + Num(M, b, bn), M[a + i], sum % BASE, carry);
    }
  }

  method SubN(m: array<Limb>, r: nat, a: nat, b: nat, n: nat) returns (borrow: Limb)
    requires r + n <= m.Length && a + n <= m.Length && b + n <= m.Length
    requires Forward(r, a, n) && Forward(r, b, n)
    modifies m
    ensures borrow <= 1
    ensures Num(m[..], r, n) - borrow * Pw(n) == old(Num(m[..], a, n) - Num(m[..], b, n))
    ensures Same(old(m[..]), m[..], r, n)
  {
    hide Num, Val;
    ghost var M := m[..];
    var t := 0;
    NumZero(M, r);
    NumZero(M, a);
    NumZero(M, b);
    for i := 0 to n
      invariant -1 <= t <= 0
      invariant Num(m[..], r, i) + t * Pw(i) == Num(M, a, i) - Num(M, b, i)
      invariant Same(M, m[..], r, i)
    {
      ghost var S, c := m[..], t;
      var ai: int, bi: int := m[a + i], m[b + i];
      var diff: int := t + (ai - bi);
      m[r + i] := diff % BASE;
      t := diff / BASE;
      NumPut(S, m[..], r, i);
      NumStep(M, a, i);
      NumStep(M, b, i);
      Dist(ai, bi, Pw(i));
      CarryStep(Num(S, r, i), c, Pw(i), Num(M, a, i) - Num(M, b, i), ai - bi, diff % BASE, t);
    }
    borrow := -t;
    Dist(0, t, Pw(n));
  }

  /** mpn_sub (and mpn_sub_var with an == n): a of an limbs minus b of bn limbs. */
  method Sub(m: array<Limb>, r: nat, a: nat, an: nat, b: nat, bn: nat) returns (borrow: Limb)
    requires bn <= an && r + an <= m.Length && a + an <= m.Length && b + bn <= m.Length
    requires Forward(r, a, an) && Forward(r, b, bn)
    modifies m
    ensures borrow <= 1
    ensures Num(m[..], r, an) - borrow * Pw(an) == old(Num(m[..], a, an) - Num(m[..], b, bn))
    ensures Same(old(m[..]), m[..], r, an)
  {
    hide Num, Val;
    ghost var M := m[..];
    borrow := SubN(m, r, a, b, bn);
    var t: int := 0 - (borrow as int);
    Dist(0, borrow, Pw(bn));
    for i := bn to an
      invariant -1 <= t <= 0
      invariant Num(m[..], r, i) + t * Pw(i) == Num(M, a, i) - Num(M, b, bn)
      invariant Same(M, m[..], r, i)
    {
      ghost var S, c := m[..], t;
      var diff: int := t + m[a + i];
      m[r + i] := diff % BASE;
      t := diff / BASE;
      NumPut(S, m[..], r, i);
      NumStep(M, a, i);
      CarryStep(Num(S, r, i), c, Pw(i), Num(M, a, i) - Num(M, b, bn), M[a + i], diff % BASE, t);
    }
    borrow := -t;
    Dist(0, t, Pw(an));
  }

  /** The double-limb accumulator of mpn_addmul_1 never overflows. */
  lemma MacBound(r: int, s: int, l: int, acc: int)
    requires 0 <= r < BASE && 0 <= s < BASE && 0 <= l < BASE && 0 <= acc < BASE
    ensures 0 <= acc + (r + s * l) < BASE * BASE
  {
    NonNeg(s, l);
    MulLe(s, BASE - 1, l);
  }

  /** mpn_addmul_1: r += s * limb, the high limb returned. */
  method AddMul1(m: array<Limb>, r: nat, s: nat, n: nat, limb: Limb) returns (carry: Limb)
    requires r + n <= m.Length && s + n <= m.Length && Apart(r, n, s, n)
    modifies m
    ensures Num(m[..], r, n) + carry * Pw(n) == old(Num(m[..], r, n) + Num(m[..], s, n) * limb)
    ensures Same(old(m[..]), m[..], r, n)
  {
    hide Num, Val;
    ghost var M := m[..];
    carry := 0;
    NumZero(M, r);
    NumZero(M, s);
    for i := 0 to n
      invariant Num(m[..], r, i) + carry * Pw(i) == Num(M, r, i) + Num(M, s, i) * limb
      invariant Same(M, m[..], r, i)
    {
      ghost var S, c := m[..], carry;
      MacBound(m[r + i], m[s + i], limb, carry);
      var acc: int := carry + (m[r + i] + m[s + i] * limb);
      m[r + i] := acc % BASE;
      carry := acc / BASE;
      NumPut(S, m[..], r, i);
      MacStep(M, S, r, s, i, limb, c, acc, carry);
    }
  }

  lemma MacStep(M: seq<Limb>, S: seq<Limb>, r: nat, s: nat, i: nat, limb: Limb, c: int, acc: int, hi: int)
    requires |S| == |M| && r + i < |M| && s + i < |M|
    requires Num(S, r, i) + c * Pw(i) == Num(M, r, i) + Num(M, s, i) * limb
    requires acc == c + (M[r + i] + M[s + i] * limb) && hi == acc / BASE
    ensures Num(S, r, i) + (acc % BASE) * Pw(i) + hi * Pw(i + 1)
         == Num(M, r, i + 1) + Num(M, s, i + 1) * limb
  {
    hide Num;
    NumStep(M, r, i);
    NumStep(M, s, i);
    var p := Pw(i);
    Dist(M[r + i], M[s + i] * limb, p);
    Dist(Num(M, s, i), M[s + i] * p, limb);
    assert (M[s + i] * p) * limb == (M[s + i] * limb) * p;
    CarryStep(Num(S, r, i), c, p, Num(M, r, i) + Num(M, s, i) * limb, M[r + i] + M[s + i] * limb, acc % BASE, hi);
  }

  /** limb_add_at: src added into dest at an offset; lost is the carry past the end. */
  method AddAt(m: array<Limb>, dest: nat, len: nat, src: nat, n: nat, offset: nat) returns (ghost lost: nat)
    requires dest + len <= m.Length && src + n <= m.Length && offset + n <= len
    requires Apart(dest, len, src, n)
    modifies m
    ensures Num(m[..], dest, len) + lost * Pw(len) == old(Num(m[..], dest, len)) + old(Num(m[..], src, n)) * Pw(offset)
    ensures Same(old(m[..]), m[..], dest, len)
  {
    hide Num, Val;
    ghost var M := m[..];
    var carry := AddN(m, dest + offset, dest + offset, src, n);
    ghost var S, c := m[..], carry;
    carry := Propagate(m, dest + offset + n, dest + len, carry);
    lost := carry;
    AddAtSum(M, S, m[..], dest, len, offset, n, Num(M, src, n), c, carry);
  }

  lemma TwoWindows(x: int, mw: int, sw: int, sh: int, th: int, v: int, c: int, lost: int, po: int, pn: int, ph: int)
    requires sw + c * pn == mw + v && th + lost * ph == sh + c
    ensures x + (sw - mw) * po + (th - sh) * (po * pn) + lost * ((po * pn) * ph) == x + v * po
  {
    assert sw - mw == v - c * pn;
    assert th - sh == c - lost * ph;
    Dist(v, c * pn, po);
    Dist(c, lost * ph, po * pn);
    assert (c * pn) * po == c * (po * pn);
    assert (lost * ph) * (po * pn) == lost * ((po * pn) * ph);
  }

  /** Two changes inside a window, each weighted by its place. */
  lemma SameWindows(M: seq<Limb>, S: seq<Limb>, T: seq<Limb>, d: nat, len: nat, off: nat, n: nat)
    requires |M| == |S| == |T| && d + len <= |M| && off + n <= len
    requires Same(M, S, d + off, n) && Same(S, T, d + off + n, len - off - n)
    ensures Same(M, T, d, len)
    ensures Num(S, d, len) - Num(M, d, len) == (Num(S, d + off, n) - Num(M, d + off, n)) * Pw(off)
    ensures var h := len - off - n;
      Num(T, d, len) - Num(S, d, len) == (Num(T, d + off + n, h) - Num(S, d + off + n, h)) * Pw(off + n)
  {
    hide Num, Val, Pw;
    NumWindow(M, S, d, len, off, n);
    NumWindow(S, T, d, len, off + n, len - off - n);
  }

  lemma AddAtSum(M: seq<Limb>, S: seq<Limb>, T: seq<Limb>, d: nat, len: nat, off: nat, n: nat, v: int, c: int,
      lost: int)
    requires |M| == |S| == |T| && d + len <= |M| && off + n <= len
    requires Same(M, S, d + off, n) && Same(S, T, d + off + n, len - off - n)
    requires Num(S, d + off, n) + c * Pw(n) == Num(M, d + off, n) + v
    requires Num(T, d + off + n, len - off - n) + lost * Pw(len - off - n) == Num(S, d + off + n, len - off - n) + c
    ensures Num(T, d, len) + lost * Pw(len) == Num(M, d, len) + v * Pw(off)
    ensures Same(M, T, d, len)
  {
    hide Num, Val, Pw, Same;
    var h := len - off - n;
    SameWindows(M, S, T, d, len, off, n);
    PwAdd(off, n);
    PwAdd(off + n, h);
    TwoWindows(Num(M, d, len), Num(M, d + off, n), Num(S, d + off, n), Num(S, d + off + n, h),
               Num(T, d + off + n, h), v, c, lost, Pw(off), Pw(n), Pw(h));
  }

  /** The length without high zero limbs, at least lo. */
  method TrimLen(m: array<Limb>, o: nat, n: nat, lo: nat) returns (len: nat)
    requires o + n <= m.Length && lo <= n
    ensures lo <= len <= n && (len > lo ==> m[o + len - 1] != 0)
    ensures Num(m[..], o, len) == Num(m[..], o, n)
  {
    len := n;
    while len > lo && m[o + len - 1] == 0
      invariant lo <= len <= n
      invariant forall k :: o + len <= k < o + n ==> m[k] == 0
    {
      len := len - 1;
    }
    NumTrim(m[..], o, len, n);
  }

  lemma {:induction false} ValLess(s: seq<Limb>, t: seq<Limb>, k: nat)
    requires k < |s| == |t| && s[k] < t[k]
    requires forall i :: k < i < |s| ==> s[i] == t[i]
    ensures Val(s) < Val(t)
    decreases |s|
  {
    var n := |s| - 1;
    if k == n {
      ValBound(s[..n]);
      MulLe(s[n] + 1, t[n], Pw(n));
      Dist(s[n], 1, Pw(n));
    } else {
      ValLess(s[..n], t[..n], k);
    }
  }

  /** mpn_cmp: three-way comparison of two n-limb numbers. */
  method Cmp(a: seq<Limb>, b: seq<Limb>) returns (c: int)
    requires |a| == |b|
    ensures c == (if Val(a) < Val(b) then -1 else if Val(a) > Val(b) then 1 else 0)
  {
    var n := |a|;
    while n > 0
      invariant 0 <= n <= |a|
      invariant forall i :: n <= i < |a| ==> a[i] == b[i]
    {
      n := n - 1;
      if a[n] != b[n] {
        if a[n] > b[n] {
          ValLess(b, a, n);
          return 1;
        } else {
          ValLess(a, b, n);
          return -1;
        }
      }
    }
    assert a == b;
    return 0;
  }
}
