/**
  Bitwise and, or and exclusive or of signed integers (lib/sp_bigint.c:4278-4448).
  The integers are stored as sign and magnitude; the operations walk the limbs
  of their two's complement forms. The specification is bit by bit over the
  infinite two's complement representation.
 */
module Bitwise {
  import opened Limbs
  import opened Shifts
  import opened Knuth
  import opened Integers
  import opened DivMpz

  datatype Op = AndOp | OrOp | XorOp

  function Bool(op: Op, a: bool, b: bool): bool {
    match op
    case AndOp => a && b
    case OrOp => a || b
    case XorOp => a != b
  }

  /** Bit i of the infinite two's complement representation: / rounds down. */
  ghost predicate Bit(v: int, i: nat) {
    (v / Two(i)) % 2 == 1
  }

  /** z is x op y at every bit position. */
  ghost predicate BitsAgree(op: Op, z: int, x: int, y: int) {
    forall i: nat :: Bit(z, i) == Bool(op, Bit(x, i), Bit(y, i))
  }

  // ----- one word -----

  /** The machine operator on n-bit words, read as binary numerals. */
  function Word(op: Op, x: nat, y: nat, n: nat): (r: nat)
    ensures r < Two(n)
  {
    if n == 0 then 0
    else 2 * Word(op, x / 2, y / 2, n - 1) + if Bool(op, x % 2 == 1, y % 2 == 1) then 1 else 0
  }

  lemma BitStep(v: int, i: nat)
    ensures Bit(v, i + 1) == Bit(v / 2, i)
  {
    var t := Two(i);
    var h := v / 2;
    var q, r := h / t, h % t;
    assert h == t * q + r;
    assert v == (2 * t) * q + (2 * r + v % 2) by { assert (2 * t) * q == 2 * (t * q); }
    FloorUnique(v, 2 * t, q, 2 * r + v % 2, v / (2 * t), v % (2 * t));
    assert Two(i + 1) == 2 * t;
  }

  lemma BitZero(v: int)
    ensures Bit(v, 0) == (v % 2 == 1)
  {
  }

  lemma {:induction false} WordBit(op: Op, x: nat, y: nat, n: nat, i: nat)
    requires i < n
    ensures Bit(Word(op, x, y, n), i) == Bool(op, Bit(x, i), Bit(y, i))
  {
    hide Bit;
    var w := Word(op, x, y, n);
    assert w / 2 == Word(op, x / 2, y / 2, n - 1);
    if i == 0 {
      BitZero(w);
      BitZero(x);
      BitZero(y);
    } else {
      BitStep(w, i - 1);
      BitStep(x, i - 1);
      BitStep(y, i - 1);
      WordBit(op, x / 2, y / 2, n - 1, i - 1);
    }
  }

  function Limbs32(op: Op, x: Limb, y: Limb): Limb {
    TwoLimb();
    Word(op, x, y, 32)
  }

  // ----- bits of a limb string with a sign extension -----

  /** What an n-limb two's complement string with a given sign extension stands for. */
  ghost function Extended(s: seq<Limb>, neg: bool): int {
    Val(s) - if neg then Pw(|s|) else 0
  }

  lemma FloorIs(v: int, t: int, q: int, r: int)
    requires t > 0 && v == t * q + r && 0 <= r < t
    ensures v / t == q
  {
    FloorUnique(v, t, q, r, v / t, v % t);
  }

  lemma Nested(v: int, q: int, r: int, t: int, d: int, e: int, u: int)
    requires v == q * t + r && 0 <= r < t && q == u * d + e && 0 <= e < u
    ensures v == (t * u) * d + (e * t + r) && 0 <= e * t + r < t * u
  {
    Dist(u * d, e, t);
    assert (u * d) * t == (t * u) * d;
    NonNeg(e, t);
    MulLe(e, u - 1, t);
    Dist(u, 1, t);
    assert u * t == t * u;
  }

  /** Dropping i low bits of v = q * 2^i + r keeps the bits above. */
  lemma BitShift(v: int, q: int, r: int, i: nat, j: nat)
    requires v == q * Two(i) + r && 0 <= r < Two(i)
    ensures Bit(v, i + j) == Bit(q, j)
  {
    hide Two;
    var t, u := Two(i), Two(j);
    TwoAdd(i, j);
    Nested(v, q, r, t, q / u, q % u, u);
    FloorIs(v, Two(i + j), q / u, (q % u) * t + r);
  }

  lemma LowerMultiple(v: int, q: int, r: int, t: int, c: int, k: int, w: int)
    requires v == t * q + r && w == (2 * t) * c
    ensures v + k * w == t * (q + 2 * (k * c)) + r
  {
    DistL(t, q, 2 * (k * c));
    assert k * ((2 * t) * c) == t * (2 * (k * c));
  }

  /** Bits below 2^n do not see multiples of 2^n. */
  lemma BitLow(v: int, k: int, n: nat, j: nat)
    requires j < n
    ensures Bit(v + k * Two(n), j) == Bit(v, j)
  {
    var t, c := Two(j), Two(n - j - 1);
    assert Two(j + 1) == 2 * t;
    hide Two;
    TwoAdd(j + 1, n - j - 1);
    ShiftedQuotient(v, k, t, c, Two(n));
    EvenShift(v / t, k * c);
  }

  lemma ShiftedQuotient(v: int, k: int, t: int, c: int, T: int)
    requires t > 0 && T == (2 * t) * c
    ensures (v + k * T) / t == v / t + 2 * (k * c)
  {
    LowerMultiple(v, v / t, v % t, t, c, k, T);
    FloorIs(v + k * T, t, v / t + 2 * (k * c), v % t);
  }

  lemma EvenShift(a: int, b: int)
    ensures (a + 2 * b) % 2 == a % 2
  {
  }

  /** Bit 32 i + j of a limb string is bit j of limb i; above the top it is the sign. */
  lemma BitOfLimb(s: seq<Limb>, neg: bool, i: nat, j: nat)
    requires j < 32
    ensures Bit(Extended(s, neg), 32 * i + j) == if i < |s| then Bit(s[i], j) else neg
  {
    hide Bit, Val, Pw, Two;
    var n, v := |s|, Extended(s, neg);
    if i < n {
      LimbSplit(s, i);
      TwoPw(i);
      var top := Val(s[i..]);
      assert s[i..] == [s[i]] + s[i + 1..];
      ValCons(s[i], s[i + 1..]);
      PwAdd(n - i, i);
      PwNext(n - i - 1);
      assert n - i + i == n;
      var k: int := Val(s[i + 1..]) - if neg then Pw(n - i - 1) else 0;
      ExtendedSplit(v, Val(s[..i]), s[i], Val(s[i + 1..]), top, neg, Pw(i), Pw(n - i), Pw(n - i - 1));
      ValBound(s[..i]);
      BitShift(v, s[i] + k * BASE, Val(s[..i]), 32 * i, j);
      TwoLimb();
      BitLow(s[i], k, 32, j);
    } else {
      ValBound(s);
      TwoPw(n);
      TwoMono(32 * n, 32 * i + j);
      if neg {
        BitShift(v, -1, v + Two(32 * i + j), 32 * i + j, 0);
        BitZero(-1);
      } else {
        BitShift(v, 0, v, 32 * i + j, 0);
        BitZero(0);
      }
    }
  }

  lemma ExtendedSplit(v: int, lo: int, d: int, rest: int, top: int, neg: bool, pi: int, pr: int, pt: int)
    requires top == d + BASE * rest && pr == BASE * pt && v == lo + top * pi - if neg then pr * pi else 0
    ensures v == (d + (rest - if neg then pt else 0) * BASE) * pi + lo
  {
    Dist(top, if neg then pr else 0, pi);
  }

  /** The bits determine the integer. */
  lemma {:induction false} BitsUnique(a: int, b: int)
    requires forall i: nat :: Bit(a, i) == Bit(b, i)
    ensures a == b
    decreases (if a < 0 then -a else a) + (if b < 0 then -b else b)
  {
    hide Bit;
    BitZero(a);
    BitZero(b);
    if !(a == b && -1 <= a <= 0) {
      forall i: nat ensures Bit(a / 2, i) == Bit(b / 2, i) {
        BitStep(a, i);
        BitStep(b, i);
      }
      assert Bit(a, 0) == Bit(b, 0);
      if -1 <= a <= 0 && -1 <= b <= 0 { return; }
      BitsUnique(a / 2, b / 2);
    }
  }

  // ----- limb strings of equal length -----

  /** Limb by limb. */
  ghost function Zip(op: Op, x: seq<Limb>, y: seq<Limb>): (z: seq<Limb>)
    requires |x| == |y|
    ensures |z| == |x| && forall i :: 0 <= i < |z| ==> z[i] == Limbs32(op, x[i], y[i])
  {
    seq(|x|, i requires 0 <= i < |x| => Limbs32(op, x[i], y[i]))
  }

  lemma ZipBit(op: Op, x: seq<Limb>, y: seq<Limb>, sx: bool, sy: bool, k: nat)
    requires |x| == |y|
    ensures Bit(Extended(Zip(op, x, y), Bool(op, sx, sy)), k)
         == Bool(op, Bit(Extended(x, sx), k), Bit(Extended(y, sy), k))
  {
    hide Bit, Extended, Word;
    var i, j, z := k / 32, k % 32, Zip(op, x, y);
    assert k == 32 * i + j;
    BitOfLimb(x, sx, i, j);
    BitOfLimb(y, sy, i, j);
    BitOfLimb(z, Bool(op, sx, sy), i, j);
    if i < |x| {
      WordBit(op, x[i], y[i], 32, j);
    }
  }

  /** The operation on limbs and on signs is the operation on every bit. */
  lemma ZipAgrees(op: Op, x: seq<Limb>, y: seq<Limb>, sx: bool, sy: bool)
    requires |x| == |y|
    ensures BitsAgree(op, Extended(Zip(op, x, y), Bool(op, sx, sy)), Extended(x, sx), Extended(y, sy))
  {
    hide Bit, Extended, Bool;
    forall k: nat
      ensures Bit(Extended(Zip(op, x, y), Bool(op, sx, sy)), k)
        == Bool(op, Bit(Extended(x, sx), k), Bit(Extended(y, sy), k))
    {
      ZipBit(op, x, y, sx, sy, k);
    }
  }

  // ----- the walk over two's complement limbs -----

  /** make_2comp: one limb of the negation, with the carry. */
  method Comp(v: Limb, c: nat) returns (v': Limb, c': nat)
    requires c <= 1
    ensures v' + c' * BASE == BASE - 1 - v + c && c' <= 1
  {
    v' := (BASE - 1 - v + c) % BASE;
    c' := if v' == 0 && c == 1 then 1 else 0;
  }

  function LimbAt(s: seq<Limb>, i: nat): Limb {
    if i < |s| then s[i] else 0
  }

  lemma PaddedStep(s: seq<Limb>, i: nat)
    ensures Low(s, i + 1) == Low(s, i) + LimbAt(s, i) * Pw(i)
  {
    if i < |s| {
      ValTake(s, i);
    } else {
      assert s[..|s|] == s;
    }
  }

  /** The value of the first i limbs of s extended by zeros. */
  ghost function Low(s: seq<Limb>, i: nat): nat {
    if i <= |s| then Val(s[..i]) else Val(s)
  }

  /** t is s, or with neg its two's complement, in |t| limbs; c is the carry out. */
  ghost predicate Complement(neg: bool, s: seq<Limb>, t: seq<Limb>, c: nat) {
    if neg then Val(t) + c * Pw(|t|) == Pw(|t|) - Low(s, |t|) else Val(t) == Low(s, |t|)
  }

  /** One more limb of a complement. */
  method CompLimb(neg: bool, ghost s: seq<Limb>, ghost t: seq<Limb>, v: Limb, c: nat) returns (v': Limb, c': nat)
    requires c <= 1 && Complement(neg, s, t, c) && v == LimbAt(s, |t|)
    ensures c' <= 1 && Complement(neg, s, t + [v'], c')
  {
    hide Val, Pw, Low, LimbAt;
    PaddedStep(s, |t|);
    PwNext(|t|);
    ghost var p := Pw(|t|);
    if neg {
      v', c' := Comp(v, c);
      ComplementStep(Val(t), c, p, Low(s, |t|), v, v', c', Pw(|t| + 1));
    } else {
      v', c' := v, c;
    }
    ValSnoc(t, v');
    assert |t + [v']| == |t| + 1;
  }

  lemma ComplementStep(t: int, c: int, p: int, low: int, v: int, v': int, c': int, pn: int)
    requires pn == BASE * p && t + c * p == p - low && v' + c' * BASE == BASE - 1 - v + c
    ensures (t + v' * p) + c' * pn == pn - (low + v * p)
  {
    assert v' == BASE - 1 - v + c - c' * BASE;
    Dist(BASE - 1 - v + c, c' * BASE, p);
    Dist(BASE - 1 - v, c, p);
    Dist(BASE - 1, v, p);
    Assoc(c', BASE, p);
  }

  /** The loop shared by the slow paths of mpz_and, mpz_or and mpz_xor. */
  method Walk(op: Op, xp: seq<Limb>, yp: seq<Limb>, sx: bool, sy: bool, sz: bool, n: nat)
      returns (zp: seq<Limb>, c3: nat, ghost X: seq<Limb>, ghost Y: seq<Limb>, ghost cx: nat, ghost cy: nat)
    requires |xp| <= n && |yp| <= n
    ensures |zp| == |X| == |Y| == n && c3 <= 1 && cx <= 1 && cy <= 1
    ensures Complement(sx, xp, X, cx) && Complement(sy, yp, Y, cy) && Complement(sz, Zip(op, X, Y), zp, c3)
  {
    hide Val, Pw, Word, Complement;
    var c1, c2 := 1, 1;
    zp, c3, X, Y := [], 1, [], [];
    ghost var Z: seq<Limb> := [];
    ComplementStart(sx, xp);
    ComplementStart(sy, yp);
    ComplementStart(sz, Z);
    for i := 0 to n
      invariant |zp| == |X| == |Y| == |Z| == i && c1 <= 1 && c2 <= 1 && c3 <= 1
      invariant Z == Zip(op, X, Y)
      invariant Complement(sx, xp, X, c1) && Complement(sy, yp, Y, c2) && Complement(sz, Z, zp, c3)
    {
      var xv, yv := LimbAt(xp, i), LimbAt(yp, i);
      xv, c1 := CompLimb(sx, xp, X, xv, c1);
      yv, c2 := CompLimb(sy, yp, Y, yv, c2);
      var w := Limbs32(op, xv, yv);
      X, Y := X + [xv], Y + [yv];
      ComplementLonger(sz, Z, Z + [w], zp, c3);
      Z := Z + [w];
      assert Z == Zip(op, X, Y);
      var zv;
      zv, c3 := CompLimb(sz, Z, zp, w, c3);
      zp := zp + [zv];
    }
    cx, cy := c1, c2;
  }

  lemma ComplementStart(neg: bool, s: seq<Limb>)
    ensures Complement(neg, s, [], 1)
  {
    ValEmpty(s[..0]);
    PwFirst();
  }

  lemma ComplementLonger(neg: bool, s: seq<Limb>, s': seq<Limb>, t: seq<Limb>, c: nat)
    requires Complement(neg, s, t, c) && s <= s' && |t| == |s|
    ensures Complement(neg, s', t, c)
  {
    assert s'[..|t|] == s[..|t|];
  }

  /** A negative operand is nonzero, so its complement has no carry out. */
  lemma ComplementValue(neg: bool, s: seq<Limb>, t: seq<Limb>, c: nat, sn: int)
    requires Complement(neg, s, t, c) && |s| <= |t| && c <= 1 && (neg ==> Val(s) > 0)
    requires sn == if neg then -1 else 1
    ensures Extended(t, neg) == sn * Val(s)
  {
    assert s[..|s|] == s;
    assert Low(s, |t|) == Val(s);
  }

  /** Storing the walked limbs: a final carry is one more limb. */
  method StoreWalk(z: Mpz, zp: seq<Limb>, c3: nat, neg: bool, ghost Z: seq<Limb>)
    requires |Z| == |zp| && c3 <= 1 && Complement(neg, Z, zp, c3)
    modifies z
    ensures z.Ok() && z.Value() == Extended(Z, neg)
  {
    hide Val, Pw;
    assert Z[..|Z|] == Z;
    if neg && c3 == 1 {
      ValSnoc(zp, 1);
      Store(z, zp + [1], -1);
    } else {
      Store(z, zp, if neg then -1 else 1);
    }
  }

  /** The slow path. */
  method Slow(op: Op, z: Mpz, x: Mpz, y: Mpz, neg: bool)
    requires x.Ok() && y.Ok() && x.sn != 0 && y.sn != 0 && z != x && z != y && neg == Bool(op, x.sn < 0, y.sn < 0)
    modifies z
    ensures z.Ok() && BitsAgree(op, z.Value(), x.Value(), y.Value())
  {
    hide Val, Bit, Complement, BitsAgree;
    var n := if |x.p| > |y.p| then |x.p| else |y.p|;
    var zp, c3;
    ghost var X, Y, cx, cy;
    zp, c3, X, Y, cx, cy := Walk(op, x.p, y.p, x.sn < 0, y.sn < 0, neg, n);
    ComplementValue(x.sn < 0, x.p, X, cx, x.sn);
    ComplementValue(y.sn < 0, y.p, Y, cy, y.sn);
    ZipAgrees(op, X, Y, x.sn < 0, y.sn < 0);
    StoreWalk(z, zp, c3, neg, Zip(op, X, Y));
  }

  // ----- both operands positive -----

  lemma {:induction false} WordZero(x: nat, n: nat)
    requires x < Two(n)
    ensures Word(AndOp, x, 0, n) == 0 && Word(AndOp, 0, x, n) == 0
    ensures Word(OrOp, x, 0, n) == x && Word(OrOp, 0, x, n) == x
    ensures Word(XorOp, x, 0, n) == x && Word(XorOp, 0, x, n) == x
  {
    if n > 0 {
      WordZero(x / 2, n - 1);
    }
  }

  ghost function Pad(s: seq<Limb>, n: nat): (t: seq<Limb>)
    requires |s| <= n
    ensures |t| == n && Val(t) == Val(s) && forall k :: 0 <= k < n ==> t[k] == LimbAt(s, k)
  {
    ValAppend(s, Zeros(n - |s|));
    ValZeros(Zeros(n - |s|));
    s + Zeros(n - |s|)
  }

  method CommonLimbs(op: Op, x: seq<Limb>, y: seq<Limb>, n: nat) returns (r: seq<Limb>)
    requires n <= |x| && n <= |y|
    ensures |r| == n && forall k :: 0 <= k < n ==> r[k] == Limbs32(op, x[k], y[k])
  {
    hide Limbs32;
    r := [];
    for i := 0 to n
      invariant |r| == i && forall k :: 0 <= k < i ==> r[k] == Limbs32(op, x[k], y[k])
    {
      r := r + [Limbs32(op, x[i], y[i])];
    }
  }

  /** The fast path: the common limbs combined, then the longer operand's rest, except for and. */
  method Fast(op: Op, z: Mpz, x: Mpz, y: Mpz)
    requires x.Ok() && y.Ok() && x.sn == 1 && y.sn == 1 && z != x && z != y
    modifies z
    ensures z.Ok() && BitsAgree(op, z.Value(), x.Value(), y.Value())
  {
    hide Val, Bit, BitsAgree, Word;
    var min := if |x.p| < |y.p| then |x.p| else |y.p|;
    var r := CommonLimbs(op, x.p, y.p, min);
    var rest := if op == AndOp then [] else if |x.p| > |y.p| then x.p[min..] else y.p[min..];
    Store(z, r + rest, 1);
    ghost var n := if |x.p| > |y.p| then |x.p| else |y.p|;
    FastLimbs(op, x.p, y.p, r, rest, n);
    ZipAgrees(op, Pad(x.p, n), Pad(y.p, n), false, false);
  }

  lemma FastLimbs(op: Op, x: seq<Limb>, y: seq<Limb>, r: seq<Limb>, rest: seq<Limb>, n: nat)
    requires n == (if |x| > |y| then |x| else |y|)
    requires |r| == (if |x| < |y| then |x| else |y|) && forall k :: 0 <= k < |r| ==> r[k] == Limbs32(op, x[k], y[k])
    requires rest == if op == AndOp then [] else if |x| > |y| then x[|r|..] else y[|r|..]
    ensures Val(r + rest) == Val(Zip(op, Pad(x, n), Pad(y, n)))
  {
    hide Val, Word, Limbs32, Pad, Zip;
    var Z := Zip(op, Pad(x, n), Pad(y, n));
    forall k | |r| <= k < n
      ensures Z[k] == if op == AndOp then 0 else if |x| > |y| then x[k] else y[k]
    {
      PastShorter(op, if |x| > |y| then x[k] else y[k]);
    }
    assert Z[..|r|] == r;
    assert Z == r + Z[|r|..];
    if op == AndOp {
      ValAppend(r, Z[|r|..]);
      ValZeros(Z[|r|..]);
      assert r + rest == r;
    } else {
      RestIs(Z, if |x| > |y| then x else y, |r|, rest);
    }
  }

  /** A limb against nothing. */
  lemma PastShorter(op: Op, d: Limb)
    ensures Limbs32(op, d, 0) == (if op == AndOp then 0 else d) && Limbs32(op, 0, d) == Limbs32(op, d, 0)
  {
    TwoLimb();
    WordZero(d, 32);
  }

  lemma RestIs(Z: seq<Limb>, x: seq<Limb>, k: nat, rest: seq<Limb>)
    requires |Z| == |x| && k <= |x| && rest == x[k..] && forall i :: k <= i < |x| ==> Z[i] == x[i]
    ensures Z[k..] == rest
  {
  }

  // ----- the three operations -----

  lemma ZeroBits(op: Op, v: int)
    ensures BitsAgree(AndOp, 0, 0, v) && BitsAgree(AndOp, 0, v, 0)
    ensures op != AndOp ==> BitsAgree(op, v, 0, v) && BitsAgree(op, v, v, 0)
  {
    hide Bit;
    forall i: nat ensures !Bit(0, i) {
      ZeroBit(i);
    }
  }

  lemma ZeroBit(i: nat)
    ensures !Bit(0, i)
  {
    hide Two;
    assert 0 / Two(i) == 0;
  }

  /** A copy of x, trimmed. */
  method CopyTrimmed(z: Mpz, x: Mpz)
    requires x.Ok() && z != x
    modifies z
    ensures z.Ok() && z.Value() == x.Value()
  {
    hide Val;
    z.alloc := true;
    Set(z, x);
    Trim(z);
    TrimOk(x.p, x.sn, z.p, z.sn);
  }

  // The three operations at one bit, in plain connectives.

  lemma AndMeans(z: int, x: int, y: int)
    requires BitsAgree(AndOp, z, x, y)
    ensures forall i: nat :: Bit(z, i) == (Bit(x, i) && Bit(y, i))
  {
    hide Bit;
  }

  lemma OrMeans(z: int, x: int, y: int)
    requires BitsAgree(OrOp, z, x, y)
    ensures forall i: nat :: Bit(z, i) == (Bit(x, i) || Bit(y, i))
  {
    hide Bit;
  }

  lemma XorMeans(z: int, x: int, y: int)
    requires BitsAgree(XorOp, z, x, y)
    ensures forall i: nat :: Bit(z, i) == (Bit(x, i) != Bit(y, i))
  {
    hide Bit;
  }

  /** mpz_and. */
  method AndMpz(z: Mpz, x: Mpz, y: Mpz)
    requires x.Ok() && y.Ok() && z != x && z != y
    modifies z
    ensures z.Ok()
    ensures forall i: nat :: Bit(z.Value(), i) == (Bit(x.Value(), i) && Bit(y.Value(), i))
  {
    hide Val, Bit, BitsAgree;
    if x.sn == 0 || y.sn == 0 {
      z.alloc := false;
      SetZero(z);
      ZeroBits(AndOp, if x.sn == 0 then y.Value() else x.Value());
      AndMeans(z.Value(), x.Value(), y.Value());
      return;
    }
    if x.sn > 0 && y.sn > 0 {
      Fast(AndOp, z, x, y);
      AndMeans(z.Value(), x.Value(), y.Value());
      return;
    }
    Slow(AndOp, z, x, y, x.sn < 0 && y.sn < 0);
    AndMeans(z.Value(), x.Value(), y.Value());
  }

  /** mpz_or: in the slow path an operand is negative, and so is the result. */
  method OrMpz(z: Mpz, x: Mpz, y: Mpz)
    requires x.Ok() && y.Ok() && z != x && z != y
    modifies z
    ensures z.Ok()
    ensures forall i: nat :: Bit(z.Value(), i) == (Bit(x.Value(), i) || Bit(y.Value(), i))
  {
    hide Val, Bit, BitsAgree;
    if x.sn == 0 {
      CopyTrimmed(z, y);
      ZeroBits(OrOp, y.Value());
      OrMeans(z.Value(), x.Value(), y.Value());
      return;
    }
    if y.sn == 0 {
      CopyTrimmed(z, x);
      ZeroBits(OrOp, x.Value());
      OrMeans(z.Value(), x.Value(), y.Value());
      return;
    }
    if x.sn > 0 && y.sn > 0 {
      Fast(OrOp, z, x, y);
      OrMeans(z.Value(), x.Value(), y.Value());
      return;
    }
    Slow(OrOp, z, x, y, (if x.sn == y.sn then x.sn else -1) < 0);
    OrMeans(z.Value(), x.Value(), y.Value());
  }

  /** mpz_xor. */
  method XorMpz(z: Mpz, x: Mpz, y: Mpz)
    requires x.Ok() && y.Ok() && z != x && z != y
    modifies z
    ensures z.Ok()
    ensures forall i: nat :: Bit(z.Value(), i) == (Bit(x.Value(), i) != Bit(y.Value(), i))
  {
    hide Val, Bit, BitsAgree;
    if x.sn == 0 {
      CopyTrimmed(z, y);
      ZeroBits(XorOp, y.Value());
      XorMeans(z.Value(), x.Value(), y.Value());
      return;
    }
    if y.sn == 0 {
      CopyTrimmed(z, x);
      ZeroBits(XorOp, x.Value());
      XorMeans(z.Value(), x.Value(), y.Value());
      return;
    }
    if x.sn > 0 && y.sn > 0 {
      Fast(XorOp, z, x, y);
      XorMeans(z.Value(), x.Value(), y.Value());
      return;
    }
    Slow(XorOp, z, x, y, x.sn != y.sn);
    XorMeans(z.Value(), x.Value(), y.Value());
  }
}
