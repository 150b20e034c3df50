/**
  The divide-and-conquer base-10 printer (lib/sp_bigint.c:3376-3738). It splits
  at powers of ten through 10^k = 5^k * 2^k and works in shared scratch numbers:
  the upper part of every split is handed on in the variable that the next
  division uses for its quotient. A short dividend is lost there, so the printer
  is right exactly for the numbers in which that does not happen.
 */
module LargePrinter {
  import opened Limbs
  import opened Powers
  import opened Shifts
  import opened Integers
  import opened MulMpz
  import opened DivMpz
  import opened Barrett
  import opened Radix
  import opened DecimalSize

  const THRESHOLD: nat := 700

  // ----- digit strings of a fixed length -----

  /** The low n digits of x, least significant first. */
  function Padded(x: nat, n: nat): (ds: seq<int>)
    ensures |ds| == n && Below(ds, 10)
  {
    if n == 0 then [] else [x % 10] + Padded(x / 10, n - 1)
  }

  lemma {:induction false} PaddedValue(x: nat, n: nat)
    requires x < Power(10, n)
    ensures DVal(Padded(x, n), 10) == x
  {
    hide Power, DVal;
    if n == 0 {
      PowerStep(10, 0);
      EmptyDigits(10);
    } else {
      PowerStep(10, n - 1);
      PaddedValue(x / 10, n - 1);
      DCons(x % 10, Padded(x / 10, n - 1), 10);
    }
  }

  /** A digit string of that length is determined by its value. */
  lemma {:induction false} PaddedUnique(ds: seq<int>, x: nat)
    requires Below(ds, 10) && DVal(ds, 10) == x
    ensures ds == Padded(x, |ds|)
    decreases |ds|
  {
    hide DVal;
    if ds != [] {
      var d, rest := ds[0], ds[1..];
      assert ds == [d] + rest;
      DCons(d, rest, 10);
      DNonNeg(rest, 10);
      PaddedUnique(rest, DVal(rest, 10));
    }
  }

  lemma {:induction false} DAppend(a: seq<int>, b: seq<int>, base: int)
    ensures DVal(a + b, base) == DVal(a, base) + DVal(b, base) * Power(base, |a|)
    decreases |b|
  {
    hide Power;
    if b == [] {
      assert a + b == a;
    } else {
      var n := |b| - 1;
      DAppend(a, b[..n], base);
      assert (a + b)[..|a| + n] == a + b[..n];
      PowerSum(base, |a|, n);
      Dist(DVal(b[..n], base), b[n] * Power(base, n), Power(base, |a|));
      assert b[n] * (Power(base, |a|) * Power(base, n)) == (b[n] * Power(base, n)) * Power(base, |a|);
    }
  }

  /** The lowest k digits, and the rest. */
  function Low(x: nat, k: nat): nat {
    PowerPositive(10, k);
    DivMod(x, Power(10, k));
    x % Power(10, k)
  }

  function High(x: nat, k: nat): nat {
    PowerPositive(10, k);
    DivMod(x, Power(10, k));
    x / Power(10, k)
  }

  lemma NothingInside(k: nat)
    ensures Low(0, k) == 0 && High(0, k) == 0
  {
    PowerPositive(10, k);
    ZeroParts(Power(10, k));
  }

  /** Splitting the number splits the string. */
  lemma PaddedSplit(x: nat, n: nat, k: nat)
    requires k <= n && x < Power(10, n)
    ensures Low(x, k) < Power(10, k) && High(x, k) < Power(10, n - k)
    ensures Padded(x, n) == Padded(Low(x, k), k) + Padded(High(x, k), n - k)
  {
    hide Power, DVal, Padded;
    var p := Power(10, k);
    PowerPositive(10, k);
    PowerSum(10, k, n - k);
    SplitRange(x, p, Power(10, n - k));
    var lo, hi := Low(x, k), High(x, k);
    PaddedValue(lo, k);
    PaddedValue(hi, n - k);
    DAppend(Padded(lo, k), Padded(hi, n - k), 10);
    PaddedUnique(Padded(lo, k) + Padded(hi, n - k), x);
  }

  lemma SplitRange(x: nat, p: nat, q: nat)
    requires p > 0 && x < p * q
    ensures x == x % p + (x / p) * p && 0 <= x % p < p && 0 <= x / p < q
  {
    DivMod(x, p);
    if x / p >= q {
      MulLe(q, x / p, p);
      assert false;
    }
  }

  // ----- what the printer writes -----

  /** The index of the power to split at: the largest i below np with 2^(i+1) at most nd. */
  function SplitIndex(nd: nat, np: nat): (i: nat)
    ensures np > 0 ==> i < np
  {
    if np <= 1 then 0 else if 2 * Two(np - 1) <= nd then np - 1 else SplitIndex(nd, np - 1)
  }

  lemma {:induction false} SplitFits(nd: nat, np: nat)
    requires nd >= 2
    ensures 2 * Two(SplitIndex(nd, np)) <= nd
  {
    hide Two;
    TwoZero();
    if np > 1 && 2 * Two(np - 1) > nd {
      SplitFits(nd, np - 1);
    }
  }

  /** The digits written for x in nd places; same says that x is the quotient's own variable. */
  ghost function Written(x: nat, nd: nat, np: nat, same: bool): (ds: seq<int>)
    ensures |ds| == nd && Below(ds, 10)
    decreases np
  {
    if nd <= THRESHOLD || np == 0 then Padded(x, nd)
    else
      var i := SplitIndex(nd, np);
      var k := Two(i);
      SplitFits(nd, np);
      if Short(same, x, k) then Written(0, k, i, false) + Written(0, nd - k, i, true)
      else Written(Low(x, k), k, i, false) + Written(High(x, k), nd - k, i, true)
  }

  /** The division by 5^k loses its dividend. */
  ghost predicate Short(same: bool, x: nat, k: nat) {
    PowerPositive(5, k);
    Loses(same, x, Power(5, k))
  }

  /** No division on the way loses its dividend. */
  ghost predicate Safe(x: nat, nd: nat, np: nat, same: bool)
    decreases np
  {
    if nd <= THRESHOLD || np == 0 then true
    else
      var i := SplitIndex(nd, np);
      var k := Two(i);
      SplitFits(nd, np);
      !Short(same, x, k) && Safe(Low(x, k), k, i, false) && Safe(High(x, k), nd - k, i, true)
  }

  lemma {:induction false} SafeZero(nd: nat, np: nat, same: bool)
    ensures Safe(0, nd, np, same)
    decreases np
  {
    hide Low, High, Power;
    if !(nd <= THRESHOLD || np == 0) {
      var i := SplitIndex(nd, np);
      SplitFits(nd, np);
      NothingInside(Two(i));
      SafeZero(Two(i), i, false);
      SafeZero(nd - Two(i), i, true);
    }
  }

  lemma ZeroParts(p: nat)
    requires p > 0
    ensures 0 % p == 0 && 0 / p == 0
  {
  }

  /** The two definitions, one split down. */
  lemma SplitStep(x: nat, nd: nat, np: nat, same: bool, i: nat, k: nat)
    requires nd > THRESHOLD && np > 0 && i == SplitIndex(nd, np) && k == Two(i)
    ensures i < np && 2 * k <= nd
    ensures Written(x, nd, np, same) ==
      if Short(same, x, k) then Written(0, k, i, false) + Written(0, nd - k, i, true)
      else Written(Low(x, k), k, i, false) + Written(High(x, k), nd - k, i, true)
    ensures Safe(x, nd, np, same) <==>
      !Short(same, x, k) && Safe(Low(x, k), k, i, false) && Safe(High(x, k), nd - k, i, true)
  {
    hide Two, SplitIndex, Short, Low, High;
    SplitFits(nd, np);
  }

  /** The printer writes the digits of x if and only if nothing is lost on the way. */
  lemma {:induction false} WrittenExact(x: nat, nd: nat, np: nat, same: bool)
    requires x < Power(10, nd)
    ensures Written(x, nd, np, same) == Padded(x, nd) <==> Safe(x, nd, np, same)
    decreases np, 0, 1
  {
    hide Power, Two, Padded, SplitIndex, Written, Safe, Low, High, Below, Short;
    if nd <= THRESHOLD || np == 0 {
      DirectWritten(x, nd, np, same);
    } else {
      var i := SplitIndex(nd, np);
      var k := Two(i);
      if Short(same, x, k) {
        LostExact(x, nd, np, same, i, k);
      } else {
        PartsExact(x, nd, np, same, i, k);
      }
    }
  }

  /** A lost dividend prints as zeros, which are not its digits. */
  lemma LostExact(x: nat, nd: nat, np: nat, same: bool, i: nat, k: nat)
    requires nd > THRESHOLD && np > 0 && i == SplitIndex(nd, np) && k == Two(i) && x < Power(10, nd)
    requires Short(same, x, k)
    ensures Written(x, nd, np, same) != Padded(x, nd) && !Safe(x, nd, np, same)
    decreases np, 0, 0
  {
    hide Power, Two, Padded, SplitIndex, Written, Safe, Low, High, Below, Short;
    SplitStep(x, nd, np, same, i, k);
    AllZero(k, i, false);
    AllZero(nd - k, i, true);
    ShortPositive(same, x, k);
    LostDiffers(x, nd, k);
  }

  /** A split without a loss is exact when both parts are. */
  lemma PartsExact(x: nat, nd: nat, np: nat, same: bool, i: nat, k: nat)
    requires nd > THRESHOLD && np > 0 && i == SplitIndex(nd, np) && k == Two(i) && x < Power(10, nd)
      && !Short(same, x, k)
    ensures Written(x, nd, np, same) == Padded(x, nd) <==> Safe(x, nd, np, same)
    decreases np, 0, 0
  {
    hide Power, Two, Padded, SplitIndex, Written, Safe, Low, High, Below, Short;
    SplitStep(x, nd, np, same, i, k);
    PaddedSplit(x, nd, k);
    var lo, hi := Low(x, k), High(x, k);
    WrittenExact(lo, k, i, false);
    WrittenExact(hi, nd - k, i, true);
    BothParts(Written(lo, k, i, false), Written(hi, nd - k, i, true), Padded(lo, k), Padded(hi, nd - k));
  }

  lemma ShortPositive(same: bool, x: nat, k: nat)
    requires Short(same, x, k)
    ensures x > 0 && same
  {
  }

  /** Zeros are not the digits of a number that is not zero. */
  lemma LostDiffers(x: nat, nd: nat, k: nat)
    requires 0 < x < Power(10, nd) && k <= nd
    ensures Padded(0, k) + Padded(0, nd - k) != Padded(x, nd)
  {
    hide Power, Padded, Low, High;
    PaddedSplit(0, nd, k);
    NothingInside(k);
    PaddedValue(0, nd);
    PaddedValue(x, nd);
  }

  lemma BothParts(a: seq<int>, b: seq<int>, c: seq<int>, d: seq<int>)
    requires |a| == |c|
    ensures a + b == c + d <==> a == c && b == d
  {
    assert (a + b)[..|a|] == a && (c + d)[..|a|] == c && (a + b)[|a|..] == b && (c + d)[|a|..] == d;
  }

  lemma AllZero(nd: nat, np: nat, same: bool)
    ensures Written(0, nd, np, same) == Padded(0, nd)
    decreases np, 1, 0
  {
    PowerPositive(10, nd);
    SafeZero(nd, np, same);
    WrittenExact(0, nd, np, same);
  }

  // ----- which numbers are safe -----

  lemma {:induction false} TenBelowTwo(j: nat)
    ensures Power(10, 3 * j) <= Two(10 * j)
  {
    hide Power, Two;
    if j == 0 {
      TwoZero();
      PowerStep(10, 0);
    } else {
      TenBelowTwo(j - 1);
      PowerSum(10, 3, 3 * (j - 1));
      TwoAdd(10, 10 * (j - 1));
      TenBits();
      PowerPositive(10, 3 * (j - 1));
    }
  }

  lemma FiveBelowTen(k: nat)
    ensures Power(5, k) <= Power(10, k)
  {
    hide Power, Two;
    TenPower(k);
    PowerPositive(5, k);
    MulLe(1, Two(k), Power(5, k));
  }

  lemma HighLead(x: nat, n: nat, k: nat)
    requires k <= n && x >= Power(10, n)
    ensures High(x, k) >= Power(10, n - k)
  {
    hide Power;
    PowerPositive(10, k);
    PowerSum(10, k, n - k);
    var p, q := Power(10, k), Power(10, n - k);
    DivMod(x, p);
    if x / p < q {
      MulLe(x / p + 1, q, p);
      Dist(x / p, 1, p);
      assert false;
    }
  }

  lemma Twos()
    ensures Two(9) == 512 && Two(10) == 1024 && Two(11) == 2048 && Two(12) == 4096 && Two(13) == 8192
  {
    assert Two(9) == 512;
    assert Two(10) == 2 * Two(9);
    assert Two(11) == 2 * Two(10);
    assert Two(12) == 2 * Two(11);
    assert Two(13) == 2 * Two(12);
  }

  /** A lower part of at most 1024 digits is safe: its own upper part is printed directly. */
  lemma BlockSafe(x: nat, i: nat)
    requires i <= 10
    ensures Safe(x, Two(i), i, false)
  {
    hide Low, High, Power;
    Twos();
    if i < 10 {
      TwoMono(i, 9);
    } else {
      assert SplitIndex(1024, 10) == 9;
    }
  }

  /** A number that nearly fills its places, of fewer than 4096 digits, is safe. */
  lemma {:induction false} LeadingSafe(x: nat, nd: nat, np: nat, same: bool)
    requires nd < 4096 && (nd > THRESHOLD ==> x >= Power(10, nd - 40))
    ensures Safe(x, nd, np, same)
    decreases np
  {
    hide Power, Two, Low, High, SplitIndex;
    if nd > THRESHOLD && np > 0 {
      var i := SplitIndex(nd, np);
      var k := Two(i);
      SplitStep(x, nd, np, same, i, k);
      Twos();
      if i > 10 {
        TwoMono(11, i);
        assert false;
      }
      BlockSafe(Low(x, k), i);
      HighLead(x, nd - 40, k);
      LeadingSafe(High(x, k), nd - k, i, true);
      FiveBelowTen(k);
      PowerMono(10, k, nd - 40);
    }
  }

  /** How the printer starts: the places for so many limbs, and the powers of 5 it prepares. */
  function Places(len: nat): nat {
    DigitEstimate(32 * len)
  }

  function PowerCount(nd: nat, k: nat): nat
    decreases 64 - k
  {
    if k < 64 && Two(k) <= nd then PowerCount(nd, k + 1) else k
  }

  /** A number of len limbs and fewer than 4096 estimated digits is safe. */
  lemma ShortNumbersSafe(v: nat, len: nat)
    requires len > 0 && Pw(len - 1) <= v && Places(len) < 4096
    ensures Safe(v, Places(len), PowerCount(Places(len), 1), false)
  {
    hide Power, Two, Pw;
    var nd := Places(len);
    if nd > THRESHOLD {
      var j := 32 * (len - 1) / 10;
      TwoPw(len - 1);
      TwoMono(10 * j, 32 * (len - 1));
      TenBelowTwo(j);
      PowerMono(10, nd - 40, 3 * j);
    }
    LeadingSafe(v, nd, PowerCount(nd, 1), false);
  }

  // ----- a number that is printed wrong -----

  /** 10^4090 + 7 * 10^1024, of 425 limbs. */
  ghost function Bad(): nat {
    PowerPositive(10, 4090);
    PowerPositive(10, 1024);
    Power(10, 4090) + 7 * Power(10, 1024)
  }

  lemma PartIs(x: nat, k: nat, hi: nat, lo: nat)
    requires x == hi * Power(10, k) + lo && lo < Power(10, k)
    ensures High(x, k) == hi && Low(x, k) == lo
  {
    hide Power;
    var p := Power(10, k);
    DivMod(x, p);
    assert p * hi == hi * p;
    FloorUnique(x, p, hi, lo, x / p, x % p);
  }

  lemma SevenTen(k: nat)
    requires k > 0
    ensures 7 * Power(10, k - 1) < Power(10, k) && 7 < Power(10, k)
  {
    hide Power;
    PowerStep(10, k - 1);
    PowerPositive(10, k - 1);
  }

  lemma BadUnsafe()
    ensures !Safe(Bad(), 4096, 13, false)
  {
    hide Power, Two, Low, High, SplitIndex, Safe, Written, Short, Bad;
    Twos();
    BadSplits();
    BadParts();
    SplitStep(Bad(), 4096, 13, false, 11, 2048);
    SevenUnsafe();
  }

  lemma BadParts()
    ensures High(Bad(), 2048) == Power(10, 2042) && Low(Bad(), 2048) == 7 * Power(10, 1024)
  {
    hide Power, Low, High;
    PowerPositive(10, 4090);
    PowerPositive(10, 1024);
    LeadAndSeven(2042, 2048, 1024);
  }

  lemma LeadAndSeven(a: nat, k: nat, j: nat)
    requires j < k
    ensures Power(10, a + k) > 0 && Power(10, j) > 0
    ensures var x := Power(10, a + k) + 7 * Power(10, j); High(x, k) == Power(10, a) && Low(x, k) == 7 * Power(10, j)
  {
    hide Power, Low, High;
    PowerPositive(10, a + k);
    PowerPositive(10, j);
    PowerPositive(10, a);
    PowerSum(10, a, k);
    SevenTen(j + 1);
    PowerMono(10, j + 1, k);
    PartIs(Power(10, a + k) + 7 * Power(10, j), k, Power(10, a), 7 * Power(10, j));
  }

  /** The lower part: a short upper part of its own. */
  lemma SevenUnsafe()
    ensures 7 * Power(10, 1024) >= 0 && !Safe(7 * Power(10, 1024), 2048, 11, false)
  {
    hide Power, Two, Low, High, SplitIndex, Safe, Written, Short;
    Twos();
    BadSplits();
    PowerPositive(10, 1024);
    var lo := 7 * Power(10, 1024);
    SplitStep(lo, 2048, 11, false, 10, 1024);
    PartIs(lo, 1024, 7, 0);
    SplitStep(7, 1024, 10, true, 9, 512);
    SevenLost();
  }

  lemma SevenLost()
    ensures Short(true, 7, 512)
  {
    hide Power;
    PowerStep(5, 0);
    PowerStep(5, 1);
    PowerMono(5, 2, 512);
  }

  lemma BadSplits()
    ensures SplitIndex(4096, 13) == 11 && SplitIndex(2048, 11) == 10 && SplitIndex(1024, 10) == 9
  {
    hide Two;
    Twos();
  }

  lemma {:induction false} TenUnderTwo(a: nat, c: nat, k: nat)
    requires Power(10, a) <= Two(c)
    ensures Power(10, a * k) <= Two(c * k)
  {
    hide Power, Two;
    if k == 0 {
      TwoZero();
      PowerStep(10, 0);
      assert c * 0 == 0 && a * 0 == 0;
    } else {
      TenUnderTwo(a, c, k - 1);
      assert c * k == c + c * (k - 1) && a * k == a + a * (k - 1);
      TwoAdd(c, c * (k - 1));
      PowerSum(10, a, a * (k - 1));
      PowerPositive(10, a);
      PowerPositive(10, a * (k - 1));
      Products(Power(10, a), Two(c), Power(10, a * (k - 1)), Two(c * (k - 1)));
    }
  }

  lemma Ten59()
    ensures Power(10, 59) <= Two(196)
  {
    hide Power, Two;
    TenTo28();
    PowerSum(10, 28, 28);
    TenBits();
    PowerSum(10, 56, 3);
    Two64();
    TwoAdd(64, 64);
    TwoAdd(128, 64);
    TwoAdd(192, 4);
  }

  lemma Two64()
    ensures Two(64) == 0x1_0000_0000_0000_0000 && Two(4) == 16
  {
    TwoLimb();
    TwoAdd(32, 32);
  }

  /** 10^4090 + 7 * 10^1024 takes exactly 425 limbs, for which the printer reserves 4096 places. */
  lemma BadSize()
    ensures Pw(424) <= Bad() < Pw(425) && Places(425) == 4096 && PowerCount(4096, 1) == 13
    ensures Bad() < Power(10, 4096)
  {
    hide Power, Two, Pw;
    BadLow();
    BadHigh();
    BadPlaces();
    PowerMono(10, 4091, 4096);
  }

  lemma BadPlaces()
    ensures Places(425) == 4096 && PowerCount(4096, 1) == 13
  {
    hide Two;
    Twos();
    SmallTwosUp();
  }

  lemma SmallTwosUp()
    ensures Two(1) == 2 && Two(2) == 4 && Two(3) == 8 && Two(4) == 16
    ensures Two(5) == 32 && Two(6) == 64 && Two(7) == 128 && Two(8) == 256
  {
  }

  lemma BadLow()
    ensures Pw(424) <= Bad()
  {
    hide Power, Two, Pw;
    TwoPw(424);
    SmallPair();
    Repeated(93, 28, 146);
    TwoMono(13568, 13578);
    PowerMono(10, 4088, 4090);
    PowerPositive(10, 1024);
  }

  lemma BadHigh()
    ensures Bad() < Power(10, 4091) <= Pw(425)
  {
    hide Power, Two, Pw;
    TwoPw(425);
    Ten59();
    TenUnderTwo(59, 196, 69);
    TenBelowTwo(7);
    PowerSum(10, 4071, 21);
    TwoAdd(13524, 70);
    PowerPositive(10, 4071);
    PowerPositive(10, 21);
    Products(Power(10, 4071), Two(13524), Power(10, 21), Two(70));
    PowerMono(10, 4091, 4092);
    TwoMono(13594, 13600);
    PowerStep(10, 4090);
    SevenTen(1025);
    PowerMono(10, 1025, 4090);
  }

  // ----- the base case -----

  /** What is left to write after some digits: it ends when there is no room for more. */
  lemma NothingLeft(ds: seq<int>, rest: nat, X: nat, nd: nat)
    requires Below(ds, 10) && DVal(ds, 10) + rest * Power(10, |ds|) == X < Power(10, nd) && |ds| <= nd
    ensures |ds| == nd ==> rest == 0
    ensures |ds| + 1 == nd ==> rest < 10
  {
    hide Power, DVal;
    DNonNeg(ds, 10);
    var p := Power(10, |ds|);
    PowerPositive(10, |ds|);
    if |ds| == nd && rest > 0 {
      MulLe(1, rest, p);
      assert false;
    }
    if |ds| + 1 == nd && rest >= 10 {
      PowerStep(10, |ds|);
      MulLe(10, rest, p);
      assert false;
    }
  }

  /** One digit u of rest = batch + high * 10^r, with batch = 10 q + u, moved to the string. */
  lemma BatchDigit(ds: seq<int>, batch: int, q: int, u: int, high: nat, r: nat, X: int)
    requires r > 0 && Below(ds, 10) && DVal(ds, 10) + (batch + high * Power(10, r)) * Power(10, |ds|) == X
    requires batch == 10 * q + u && 0 <= u < 10
    ensures Below(ds + [u], 10)
    ensures DVal(ds + [u], 10) + (q + high * Power(10, r - 1)) * Power(10, |ds| + 1) == X
  {
    hide Power, DVal, Below;
    PowerStep(10, r - 1);
    var h := high * Power(10, r - 1);
    assert high * (10 * Power(10, r - 1)) == 10 * h;
    PushParts(ds, batch + high * Power(10, r), 10, X, q + h, u);
    BelowSnoc(ds, u, 10);
  }

  /** The nine digits of a batch, as far as there is room; high is what remains above it. */
  method EmitBatch(ds0: seq<int>, batch0: nat, ghost high: nat, nd: nat, ghost X: nat) returns (ds: seq<int>)
    requires |ds0| < nd && batch0 < CHUNK && Below(ds0, 10) && X < Power(10, nd)
    requires DVal(ds0, 10) + (batch0 + high * Power(10, 9)) * Power(10, |ds0|) == X
    ensures |ds0| < |ds| <= nd && Below(ds, 10) && DVal(ds, 10) + high * Power(10, |ds|) == X
  {
    hide Power, DVal, Below;
    DivMod(batch0, 10);
    BatchDigit(ds0, batch0, batch0 / 10, batch0 % 10, high, 9, X);
    ds := ds0 + [batch0 % 10];
    var batch := batch0 / 10;
    ghost var limit := 100000000;
    var d := 0;
    while d < 4 && |ds| + 2 <= nd
      invariant 0 <= d <= 4 && |ds0| < |ds| <= nd && Below(ds, 10) && 0 <= batch < limit
      invariant limit == if d == 0 then 100000000 else if d == 1 then 1000000 else if d == 2 then 10000
        else if d == 3 then 100 else 1
      invariant DVal(ds, 10) + (batch + high * Power(10, 8 - 2 * d)) * Power(10, |ds|) == X
    {
      BatchPair(ds, batch, high, 8 - 2 * d, X);
      ds := ds + [batch % 100 % 10] + [batch % 100 / 10];
      batch := batch / 100;
      limit := limit / 100;
      d := d + 1;
    }
    ds := LastDigit(ds, batch, high, 8 - 2 * d, nd, X);
  }

  /** The single digit when only one place is left. */
  method LastDigit(ds0: seq<int>, batch: nat, ghost high: nat, ghost r: nat, nd: nat, ghost X: nat)
      returns (ds: seq<int>)
    requires |ds0| <= nd && Below(ds0, 10) && X < Power(10, nd) && (r == 0 ==> batch == 0)
    requires r > 0 ==> r >= 2 && nd - 1 <= |ds0|
    requires DVal(ds0, 10) + (batch + high * Power(10, r)) * Power(10, |ds0|) == X
    ensures |ds0| <= |ds| <= nd && Below(ds, 10) && DVal(ds, 10) + high * Power(10, |ds|) == X
  {
    hide Power, DVal, Below;
    PowerStep(10, 0);
    if r > 0 { Squeezed(ds0, batch, high, r, X, nd); }
    ds := ds0;
    if |ds| < nd && batch > 0 {
      DSnoc(ds, batch, 10);
      BelowSnoc(ds, batch, 10);
      ds := ds + [batch % 10];
    }
  }

  lemma BatchPair(ds: seq<int>, batch: nat, high: nat, r: nat, X: int)
    requires r > 1 && Below(ds, 10) && DVal(ds, 10) + (batch + high * Power(10, r)) * Power(10, |ds|) == X
    ensures var e := ds + [batch % 100 % 10] + [batch % 100 / 10];
      Below(e, 10) && DVal(e, 10) + (batch / 100 + high * Power(10, r - 2)) * Power(10, |ds| + 2) == X
  {
    hide Power, DVal, Below;
    PairParts(batch);
    var u, t, q := batch % 100 % 10, batch % 100 / 10, batch / 100;
    BatchDigit(ds, batch, 10 * q + t, u, high, r, X);
    BatchDigit(ds + [u], 10 * q + t, q, t, high, r - 1, X);
  }

  /** When the room runs out inside a batch, nothing but one digit can be left. */
  lemma Squeezed(ds: seq<int>, batch: nat, high: nat, r: nat, X: nat, nd: nat)
    requires r >= 2 && Below(ds, 10) && X < Power(10, nd) && nd - 1 <= |ds| <= nd
    requires DVal(ds, 10) + (batch + high * Power(10, r)) * Power(10, |ds|) == X
    ensures high == 0 && batch < 10 && (|ds| == nd ==> batch == 0)
    ensures DVal(ds, 10) + batch * Power(10, |ds|) == X
  {
    hide Power, DVal, Below;
    PowerPositive(10, r);
    NonNeg(high, Power(10, r));
    NothingLeft(ds, batch + high * Power(10, r), X, nd);
    if high > 0 {
      MulLe(1, high, Power(10, r));
      TenTwo();
      PowerMono(10, 2, r);
      assert false;
    }
  }

  lemma TenTwo()
    ensures Power(10, 2) == 100
  {
    assert Power(10, 1) == 10;
  }

  /** The base case: batches of nine digits from a copy, then zeros. */
  method DirectDigits(x: Mpz, nd: nat) returns (ds: seq<int>)
    requires x.Ok() && x.Mag() < Power(10, nd)
    ensures ds == Padded(x.Mag(), nd)
  {
    hide Power, DVal, Below, Val, Padded;
    var p, sn := x.p, x.sn;
    ghost var X := x.Mag();
    ds := [];
    EmptyDigits(10);
    PowerStep(10, 0);
    while |ds| < nd && sn != 0
      invariant |ds| <= nd && Below(ds, 10) && DVal(ds, 10) + Val(p) * Power(10, |ds|) == X
      invariant sn == 0 ==> Val(p) == 0
      decreases nd - |ds|
    {
      var batch;
      ghost var v := Val(p);
      p, batch := DivByLimb(p, CHUNK);
      ChunkPower();
      assert v == batch + Val(p) * Power(10, 9);
      ds := EmitBatch(ds, batch, Val(p), nd, X);
      p := Stripped(p);
      ValEmpty(p);
      if p == [] { sn := 0; }
    }
    NothingLeft(ds, Val(p), X, nd);
    while |ds| < nd
      invariant |ds| <= nd && Below(ds, 10) && DVal(ds, 10) == X
    {
      DSnoc(ds, 0, 10);
      BelowSnoc(ds, 0, 10);
      ds := ds + [0];
    }
    PaddedUnique(ds, X);
  }

  // ----- the recursion -----

  /** The loop that picks the power to split at. */
  method FindSplit(nd: nat, np: nat) returns (i: nat, k: nat)
    requires np > 0 && nd >= 2
    ensures i == SplitIndex(nd, np) && k == Two(i)
  {
    hide Two;
    i, k := 0, 1;
    TwoZero();
    for j := 0 to np
      invariant i == SplitIndex(nd, if j == 0 then 1 else j) && k == Two(i)
    {
      if Two(j) * 2 <= nd {
        i, k := j, Two(j);
      }
    }
  }

  /** 10^k split into 5^k and 2^k: the upper and lower part of x come out of the quotient by 5^k. */
  lemma FiveSplit(x: nat, k: nat, q: nat, r: nat)
    requires x == q * Power(5, k) + r && r < Power(5, k)
    ensures q / Two(k) == High(x, k) && (q % Two(k)) * Power(5, k) + r == Low(x, k)
    ensures (q % Two(k)) * Power(5, k) + r < Power(10, k)
  {
    hide Power, Two, Low, High;
    var f, t := Power(5, k), Two(k);
    var h, l := q / t, q % t;
    TenPower(k);
    DivMod(q, t);
    Dist(t * h, l, f);
    assert (t * h) * f == h * (f * t);
    NonNeg(l, f);
    MulLe(l, t - 1, f);
    Dist(t, 1, f);
    assert t * f == f * t;
    PartIs(x, k, h, l * f + r);
  }

  /** The powers of 5 that are prepared: 5^(2^i). */
  ghost predicate Fives(pow5: seq<Mpz>, np: nat)
    reads pow5
  {
    && np <= |pow5|
    && forall i :: 0 <= i < np ==> IsFive(pow5[i], i)
  }

  ghost predicate IsFive(z: Mpz, i: nat)
    reads z
  {
    z.Ok() && z.sn == 1 && z.Value() == Power(5, Two(i))
  }

  lemma FiveAt(pow5: seq<Mpz>, np: nat, i: nat)
    requires Fives(pow5, np) && i < np
    ensures i < |pow5| && pow5[i].Ok() && pow5[i].sn == 1 && pow5[i].Value() == pow5[i].Mag() == Power(5, Two(i))
      && Fives(pow5, i)
  {
  }

  function Abs(n: int): int {
    if n < 0 then -n else n
  }

  /** q5 shifted down in place: mpn_rshift after a move of limbs. */
  method ShiftDown(z: Mpz, e: nat)
    requires z.Ok() && z.sn >= 0 && z.alloc
    modifies z
    ensures z.Ok() && z.sn >= 0 && z.alloc && z.Mag() == old(z.Mag()) / Two(e)
  {
    hide Val, Two;
    if e / 32 >= |z.p| {
      BelowPower(z.p, e);
      SetZero(z);
      return;
    }
    var sn := z.sn;
    var r := ShrMag(z.p, e);
    z.p := r;
    Trim(z);
    TrimOk(r, sn, z.p, z.sn);
    if sn == 0 { NoneOver(e); }
  }

  lemma NoneOver(e: nat)
    ensures 0 / Two(e) == 0
  {
    ZeroParts(Two(e));
  }

  /** The lower part: q5_low * 5^k + r5. */
  method LowerPart(low: Mpz, five: Mpz, r5: Mpz, ghost k: nat) returns (lo: Mpz, ok: bool)
    requires low.Ok() && low.sn >= 0 && five.Ok() && five.sn == 1 && r5.Ok() && r5.sn >= 0
    requires low.Mag() < Two(k) && five.Mag() == Power(5, k)
    ensures fresh(lo) && (4 * k + 128 <= BIT_LIMIT ==> ok)
    ensures ok ==> lo.Ok() && lo.sn >= 0 && lo.Mag() == low.Mag() * five.Mag() + r5.Mag()
  {
    hide Val, Two, Power;
    PartSizes(low.p, five.p, k);
    lo := new Mpz();
    ok := MulTo(lo, low, five);
    if !ok { return; }
    ghost var a, b, c := low.Mag(), five.Mag(), r5.Mag();
    NonNeg(low.sn, a);
    NonNegMag(low.sn, a);
    NonNeg(r5.sn, c);
    NonNegMag(r5.sn, c);
    NonNeg(a, b);
    AddMpz(lo, lo, r5);
    NonNegative(lo.sn, lo.Mag(), a * b + c);
    lo.sn := Abs(lo.sn);
  }

  lemma NonNegative(sn: int, v: nat, w: int)
    requires sn * v == w >= 0 && -1 <= sn <= 1 && (sn < 0 ==> v > 0) && (sn == 0 ==> v == 0)
    ensures sn >= 0 && v == w
  {
  }

  lemma {:induction false} FiveBelowEight(k: nat)
    ensures Power(5, k) <= Two(3 * k)
  {
    hide Power, Two;
    if k == 0 {
      PowerStep(5, 0);
      TwoZero();
    } else {
      FiveBelowEight(k - 1);
      PowerStep(5, k - 1);
      TwoAdd(3, 3 * (k - 1));
      Eight();
      PowerPositive(5, k - 1);
    }
  }

  lemma Eight()
    ensures Two(3) == 8
  {
  }

  lemma PartSizes(a: seq<Limb>, b: seq<Limb>, k: nat)
    requires Norm(a) && Norm(b) && Val(a) < Two(k) && Val(b) == Power(5, k)
    ensures 32 * (|a| + |b| + 1) <= 4 * k + 128
  {
    hide Val, Two, Power;
    SizeBound(a, k);
    FiveBelowEight(k);
    TwoMono(3 * k, 3 * k + 1);
    SizeBound(b, 3 * k + 1);
  }

  /** mpz_get_str_dc_recur; x may be q5, the quotient of every division below. */
  method Recur(x: Mpz, nd: nat, pow5: seq<Mpz>, np: nat, q5: Mpz, r5: Mpz, low: Mpz) returns (ds: seq<int>, ok: bool)
    requires x.Ok() && x.sn >= 0 && x.Mag() < Power(10, nd) && Fives(pow5, np) && q5.alloc
    requires q5 != r5 && q5 != low && r5 != low && x != r5 && x != low
    requires q5 !in pow5 && r5 !in pow5 && low !in pow5
    modifies q5, r5, low
    ensures q5.alloc && (2 * nd + 128 <= BIT_LIMIT ==> ok)
    ensures ok ==> ds == Written(old(x.Mag()), nd, np, x == q5)
    decreases np
  {
    hide Power, Val, Two, Written, Low, High, FloorDiv, FloorMod, Fives, SplitIndex, Short;
    if nd <= THRESHOLD || np == 0 {
      ds := DirectDigits(x, nd);
      DirectWritten(x.Mag(), nd, np, x == q5);
      return ds, true;
    }
    ghost var X, same := x.Mag(), x == q5;
    var i, k := FindSplit(nd, np);
    SplitStep(X, nd, np, same, i, k);
    FiveAt(pow5, np, i);
    assert pow5[i] in pow5;
    SplitNumber(x, pow5[i], q5, r5, low, k);
    ghost var hi, lv := q5.Mag(), low.Mag() * pow5[i].Mag() + r5.Mag();
    var lo;
    lo, ok := LowerPart(low, pow5[i], r5, k);
    ds := [];
    if !ok { return; }
    PartsFit(X, nd, k, same, hi, lv);
    var hs, ls;
    hs, ok := Recur(q5, nd - k, pow5, i, q5, r5, low);
    if !ok { return; }
    ls, ok := Recur(lo, k, pow5, i, q5, r5, low);
    ds := ls + hs;
  }

  lemma DirectWritten(x: nat, nd: nat, np: nat, same: bool)
    requires nd <= THRESHOLD || np == 0
    ensures Written(x, nd, np, same) == Padded(x, nd) && Safe(x, nd, np, same)
  {
  }

  lemma PartsFit(X: nat, nd: nat, k: nat, same: bool, hi: nat, lo: nat)
    requires X < Power(10, nd) && k <= nd
    requires if Short(same, X, k) then hi == 0 && lo == 0 else hi == High(X, k) && lo == Low(X, k)
    ensures hi < Power(10, nd - k) && lo < Power(10, k)
  {
    hide Power, Low, High, Padded;
    PowerPositive(10, k);
    PowerPositive(10, nd - k);
    PaddedSplit(X, nd, k);
  }

  /** Steps 1 to 3: the quotient and remainder by 5^k, its low k bits, and the rest in place. */
  method SplitNumber(x: Mpz, five: Mpz, q5: Mpz, r5: Mpz, low: Mpz, k: nat)
    requires x.Ok() && x.sn >= 0 && five.Ok() && five.sn == 1 && five.Mag() == Power(5, k) && q5.alloc
    requires q5 != r5 && q5 != low && r5 != low && x != r5 && x != low && five != q5 && five != r5 && five != low
    modifies q5, r5, low
    ensures q5.Ok() && q5.sn >= 0 && q5.alloc && low.Ok() && low.sn >= 0 && r5.Ok() && r5.sn >= 0 && low.Mag() < Two(k)
    ensures var hi, lo := q5.Mag(), low.Mag() * five.Mag() + r5.Mag();
      if Short(x == q5, old(x.Mag()), k) then hi == 0 && lo == 0
      else hi == High(old(x.Mag()), k) && lo == Low(old(x.Mag()), k)
  {
    hide Power, Val, Two, Low, High, FloorDiv, FloorMod, Loses;
    ghost var X, F := x.Mag(), five.Mag();
    PowerPositive(5, k);
    NonNeg(x.sn, X);
    NonNegMag(x.sn, X);
    MDivMod(q5, r5, x, five);
    ghost var lost := Loses(x == q5, X, F);
    ghost var Q, R := q5.Mag(), r5.Mag();
    if !lost { Divided(q5.sn, Q, r5.sn, R, X, F); }
    r5.sn := Abs(r5.sn);
    Mod2exp(low, q5, k);
    DivMod(Q, Two(k));
    NonNegLow(low.sn, low.Mag(), q5.sn);
    ShiftDown(q5, k);
    if lost {
      NoneOver(k);
      ZeroParts(Two(k));
    } else {
      FiveSplit(X, k, Q, R);
    }
  }

  lemma Divided(qs: int, Q: nat, rs: int, R: nat, X: nat, F: nat)
    requires F > 0 && qs * Q == FloorDiv(X, F) && rs * R == FloorMod(X, F)
    requires -1 <= qs <= 1 && -1 <= rs <= 1 && (qs < 0 ==> Q > 0) && (rs < 0 ==> R > 0) && (qs == 0 ==> Q == 0)
      && (rs == 0 ==> R == 0)
    ensures qs >= 0 && rs >= 0 && X == Q * F + R && R < F
  {
    hide FloorDiv, FloorMod;
    var q, r := FloorDiv(X, F), FloorMod(X, F);
    FloorLaw(X, F, q, r);
    assert F * q == q * F;
    if q < 0 {
      MulLe(q, -1, F);
      assert false;
    }
    NonNegative(qs, Q, q);
    NonNegative(rs, R, r);
  }

  lemma NonNegLow(ls: int, lm: nat, qs: int)
    requires ls * lm == qs * lm && qs >= 0 && (ls < 0 ==> lm > 0) && -1 <= ls
    ensures ls >= 0
  {
    if ls < 0 {
      NonNeg(qs, lm);
      assert false;
    }
  }

  // ----- the whole printer -----

  /** Leading zeros removed, but not the last digit. */
  function KeepOne(ds: seq<int>): (r: seq<int>)
    requires Below(ds, 10)
    ensures Below(r, 10) && r <= ds && DVal(r, 10) == DVal(ds, 10)
    ensures |r| <= 1 || r[|r| - 1] != 0
    ensures ds != [] ==> r != []
  {
    if |ds| > 1 && ds[|ds| - 1] == 0 then KeepOne(ds[..|ds| - 1]) else ds
  }

  lemma SmallerBase(ds: seq<int>)
    requires Below(ds, 10)
    ensures Below(ds, 36)
  {
  }

  /** What mpz_get_str_dc answers for a number of len limbs. */
  ghost function LargeText(sn: int, v: nat, len: nat): string {
    var ds := KeepOne(Written(v, Places(len), PowerCount(Places(len), 1), false));
    SmallerBase(ds);
    (if sn < 0 then "-" else "") + Text(ds)
  }

  /** The text is that of the number if and only if no division loses its dividend. */
  lemma LargeExact(sn: int, v: nat, len: nat)
    requires sn == 1 || sn == -1
    requires 0 < v < Pw(len)
    ensures LargeText(sn, v, len) == Printed(sn, v, 10) <==> Safe(v, Places(len), PowerCount(Places(len), 1), false)
  {
    hide Power, Two, Pw, Written, Safe, Padded, DVal, Canon, Text, Places, PowerCount;
    var nd, np := Places(len), PowerCount(Places(len), 1);
    EnoughPlaces(v, len);
    var w := Written(v, nd, np, false);
    WrittenExact(v, nd, np, false);
    var k, c := KeepOne(w), Canon(v, 10);
    SmallerBase(k);
    CanonValue(v, 10);
    SameTexts(k, c);
    SignedTexts(sn < 0, Text(k), Text(c));
    if w == Padded(v, nd) {
      PaddedValue(v, nd);
      NotZero(k, v);
      CanonUnique(k, 10, v);
    }
    if k == c {
      PaddedUnique(w, v);
    }
  }

  /** It stands for another number as soon as one is lost: the text reads back exactly when it is safe. */
  lemma LargeReads(sn: int, v: nat, len: nat)
    requires sn == 1 || sn == -1
    requires 0 < v < Pw(len)
    ensures var s := LargeText(sn, v, len);
      Readable(Unsigned(s), 10)
        && (ReadValue(s, 10) == sn * v <==> Safe(v, Places(len), PowerCount(Places(len), 1), false))
  {
    hide Power, Two, Pw, Written, Safe, Padded, DVal, Canon, Text, TextDigits, Unsigned, SignOf, Readable, Places,
      PowerCount, KeepOne;
    var nd, np := Places(len), PowerCount(Places(len), 1);
    EnoughPlaces(v, len);
    var w := Written(v, nd, np, false);
    WrittenExact(v, nd, np, false);
    SmallerBase(KeepOne(w));
    SignedText(sn < 0, KeepOne(w), 10);
    PaddedValue(v, nd);
    if DVal(w, 10) == v { PaddedUnique(w, v); }
  }

  lemma EnoughPlaces(v: nat, len: nat)
    requires v < Pw(len)
    ensures v < Power(10, Places(len))
  {
    hide Power, Two, Pw;
    TwoPw(len);
    EstimateEnough(32 * len);
  }

  lemma NotZero(k: seq<int>, v: nat)
    requires DVal(k, 10) == v > 0 && (|k| <= 1 || k[|k| - 1] != 0)
    ensures k != [] && k[|k| - 1] != 0
  {
    if |k| == 1 {
      assert k[..0] == [];
    }
  }

  /** A text determines its digits. */
  lemma SameTexts(a: seq<int>, b: seq<int>)
    requires Below(a, 10) && Below(b, 10)
    ensures Below(a, 36) && Below(b, 36) && (Text(a) == Text(b) <==> a == b)
  {
    TextRoundTrip(a, 10);
    TextRoundTrip(b, 10);
  }

  lemma SignedTexts(neg: bool, a: string, b: string)
    ensures var s := if neg then "-" else ""; s + a == s + b <==> a == b
  {
    var s := if neg then "-" else "";
    assert (s + a)[|s|..] == a && (s + b)[|s|..] == b;
  }

  /** Every number of at most 424 limbs is printed right. */
  lemma ShortNumbersPrinted(sn: int, v: nat, len: nat)
    requires (sn == 1 || sn == -1) && 0 < len <= 424 && Pw(len - 1) <= v < Pw(len)
    ensures LargeText(sn, v, len) == Printed(sn, v, 10)
  {
    hide Power, Two, Pw, Safe, LargeText, Printed, PowerCount;
    assert Places(len) < 4096;
    ShortNumbersSafe(v, len);
    LargeExact(sn, v, len);
  }

  /** 425 limbs are too many: the digit 7 is missing from the text of 10^4090 + 7 * 10^1024. */
  lemma LargeFails()
    ensures Pw(424) <= Bad() < Pw(425) && LargeText(1, Bad(), 425) != Printed(1, Bad(), 10)
  {
    hide Power, Two, Pw, Safe, LargeText, Printed, PowerCount, Places;
    BadSize();
    BadUnsafe();
    LargeExact(1, Bad(), 425);
  }

  /** The next power is the square of the last one. */
  method NextPower(five: Mpz, i: nat, ghost nd: nat) returns (next: Mpz, ok: bool)
    requires five.Ok() && five.Value() == five.Mag() == Power(5, Two(i)) && Two(i + 1) <= nd
    ensures fresh(next) && (3 * nd + 128 <= BIT_LIMIT ==> ok)
    ensures ok ==> IsFive(next, i + 1)
  {
    hide Power, Two, Val;
    SquareSize(five.p, i, nd);
    next := new Mpz();
    ok := Sqr(next, five);
    if ok { NextFive(next.sn, next.Mag(), i); }
  }

  /** The powers 5^(2^i), each the square of the one before. */
  method PreparePowers(nd: nat) returns (pow5: seq<Mpz>, ok: bool)
    ensures forall i :: 0 <= i < |pow5| ==> fresh(pow5[i])
    ensures 3 * nd + 128 <= BIT_LIMIT ==> ok
    ensures ok ==> |pow5| == PowerCount(nd, 1) && Fives(pow5, |pow5|)
  {
    hide Power, Two, Val, Fives, IsFive, Mpz.Ok, Mpz.Value, Mpz.Mag;
    var five := new Mpz();
    SetInt(five, 5);
    FirstFive(five);
    pow5 := [five];
    FivesSnoc([], five);
    ok := true;
    assert [] + [five] == pow5;
    ghost var n := PowerCount(nd, 1);
    while |pow5| < 64 && Two(|pow5|) <= nd
      invariant 1 <= |pow5| <= 64 && Fives(pow5, |pow5|) && forall i :: 0 <= i < |pow5| ==> fresh(pow5[i])
      invariant PowerCount(nd, |pow5|) == n
      decreases 64 - |pow5|
    {
      var last := |pow5| - 1;
      FiveAt(pow5, |pow5|, last);
      var next;
      next, ok := NextPower(pow5[last], last, nd);
      if !ok { return; }
      FivesSnoc(pow5, next);
      pow5 := pow5 + [next];
    }
  }

  lemma FivesSnoc(pow5: seq<Mpz>, next: Mpz)
    requires Fives(pow5, |pow5|) && IsFive(next, |pow5|)
    ensures Fives(pow5 + [next], |pow5| + 1)
  {
    hide IsFive;
  }

  lemma FirstFive(five: Mpz)
    requires five.Ok() && five.Value() == 5
    ensures IsFive(five, 0) && Fives([], 0)
  {
    hide Val;
    TwoZero();
    PowerStep(5, 0);
  }

  lemma NextFive(sn: int, v: nat, i: nat)
    requires sn * v == Power(5, Two(i)) * Power(5, Two(i)) && -1 <= sn <= 1
    ensures sn == 1 && sn * v == Power(5, Two(i + 1))
  {
    hide Power;
    assert Two(i + 1) == Two(i) + Two(i);
    hide Two;
    PowerSum(5, Two(i), Two(i));
    PowerPositive(5, Two(i + 1));
    if sn <= 0 { NonNeg(-sn, v); assert false; }
  }

  lemma SquareSize(p: seq<Limb>, i: nat, nd: nat)
    requires Norm(p) && Val(p) == Power(5, Two(i)) && Two(i + 1) <= nd
    ensures 32 * (2 * |p| + 1) <= 3 * nd + 128
  {
    assert Two(i + 1) == 2 * Two(i);
    hide Val, Two, Power;
    var k := Two(i);
    FiveBelowEight(k);
    TwoMono(3 * k, 3 * k + 1);
    SizeBound(p, 3 * k + 1);
  }

  /** A copy of the number and fresh scratch numbers for the recursion. */
  method StartRecur(p: seq<Limb>, nd: nat, pow5: seq<Mpz>) returns (ds: seq<int>, ok: bool)
    requires Norm(p) && p != [] && Val(p) < Power(10, nd) && Fives(pow5, |pow5|)
    ensures 2 * nd + 128 <= BIT_LIMIT ==> ok
    ensures ok ==> ds == Written(Val(p), nd, |pow5|, false)
  {
    hide Power, Val, Written;
    var tmp := new Mpz();
    var q5 := new Mpz();
    var r5 := new Mpz();
    var low := new Mpz();
    tmp.p, tmp.sn, tmp.alloc := p, 1, true;
    q5.alloc := true;
    r5.alloc := true;
    low.alloc := true;
    ds, ok := Recur(tmp, nd, pow5, |pow5|, q5, r5, low);
  }

  /** mpz_get_str_dc. */
  method GetStrLarge(x: Mpz) returns (s: string, ok: bool)
    requires x.Ok() && x.sn != 0 && |x.p| > 1
    ensures 32 * |x.p| + 256 <= BIT_LIMIT ==> ok
    ensures ok ==> s == LargeText(x.sn, x.Mag(), |x.p|)
  {
    hide Power, Two, Val, Pw, Written, DVal;
    s := "";
    var len := |Digits(x.p)|;
    AllDigits(x.p);
    var nd := Places(len);
    ValBound(x.p);
    EnoughPlaces(x.Mag(), len);
    var pow5;
    pow5, ok := PreparePowers(nd);
    if !ok { return; }
    var ds;
    ds, ok := StartRecur(x.p, nd, pow5);
    if !ok { return; }
    var r := DropLeading(ds);
    SmallerBase(r);
    s := Layout(r, x.sn < 0);
  }

  method DropLeading(ds: seq<int>) returns (r: seq<int>)
    requires Below(ds, 10)
    ensures r == KeepOne(ds)
  {
    r := ds;
    while |r| > 1 && r[|r| - 1] == 0
      invariant Below(r, 10) && KeepOne(r) == KeepOne(ds)
      decreases |r|
    {
      r := r[..|r| - 1];
    }
  }

  lemma AllDigits(p: seq<Limb>)
    requires Norm(p)
    ensures Digits(p) == p
  {
  }
}
