/**
  mpz_get_str as a whole, with its switch to the divide-and-conquer printer, and
  the two callers: to_s in base 10 with its path for small numbers, and to_s(base)
  (lib/sp_bigint.c:3914-4030, 5504-5525, 5628-5673, 5730-5746).
 */
module Printing {
  import opened Limbs
  import opened Shifts
  import opened Integers
  import opened Radix
  import opened LargePrinter
  import PowerMod

  /** Base 10 and more than 700 estimated digits. */
  predicate Large(len: nat, base: nat) {
    base == 10 && Places(len) > THRESHOLD
  }

  lemma LargeFrom(len: nat, base: nat)
    ensures Large(len, base) <==> base == 10 && len >= 73
  {
  }

  /** What mpz_get_str answers for a number of len limbs. */
  ghost function Output(sn: int, v: nat, len: nat, base: nat): string
    requires 2 <= base <= 36
  {
    if sn != 0 && Large(len, base) then LargeText(sn, v, len) else Printed(sn, v, base)
  }

  /** s is the numeral of n: digits of the base that stand for n, without a leading zero. */
  ghost predicate Numeral(s: string, n: int, base: nat) {
    var t := Unsigned(s);
    t != "" && Readable(t, base) && ReadValue(s, base) == n && (t[0] == '0' ==> s == "0")
  }

  /** No division of the divide-and-conquer printer loses its dividend. */
  ghost predicate Kept(v: nat, len: nat) {
    Safe(v, Places(len), PowerCount(Places(len), 1), false)
  }

  // ----- which texts are right -----

  /** Exactly which integers mpz_get_str prints right. */
  lemma OutputExact(sn: int, v: nat, p: seq<Limb>, base: nat)
    requires 2 <= base <= 36 && Norm(p) && v == Val(p)
    requires -1 <= sn <= 1 && (sn < 0 ==> v > 0) && (sn == 0 ==> v == 0)
    ensures Numeral(Output(sn, v, |p|, base), sn * v, base) <==>
      (sn == 0 || v > 0) && (Large(|p|, base) ==> Kept(v, |p|))
  {
    hide Val, Safe, LargeText, Printed, Readable, Unsigned, ReadValue, Places, PowerCount;
    ValBound(p);
    if v == 0 { ZeroOutput(p, base); }
    if sn != 0 && Large(|p|, base) {
      LargeNumeral(sn, v, |p|);
    } else if sn != 0 {
      DirectNumeral(sn, v, base);
    }
  }

  /** A zero is never large, and its text is the numeral 0. */
  lemma ZeroOutput(p: seq<Limb>, base: nat)
    requires 2 <= base <= 36 && Norm(p) && Val(p) == 0
    ensures !Large(|p|, base) && Numeral(Printed(0, 0, base), 0, base)
  {
    hide Val, Readable, ReadValue;
    ZeroShort(p);
    ZeroText(base);
    assert Unsigned("0") == "0";
  }

  lemma DirectNumeral(sn: int, v: nat, base: nat)
    requires 2 <= base <= 36 && (sn == 1 || sn == -1)
    ensures Numeral(Printed(sn, v, base), sn * v, base) <==> v > 0
  {
    hide Canon, Readable, ReadValue;
    if v > 0 {
      RoundTrip(sn, v, base);
    } else {
      NoDigits(sn, base);
    }
  }

  lemma NoDigits(sn: int, base: nat)
    requires 2 <= base <= 36 && (sn == 1 || sn == -1)
    ensures Unsigned(Printed(sn, 0, base)) == ""
  {
    SignedText(sn < 0, [], base);
  }

  lemma LargeNumeral(sn: int, v: nat, len: nat)
    requires (sn == 1 || sn == -1) && 0 < v < Pw(len)
    ensures Numeral(LargeText(sn, v, len), sn * v, 10) <==> Kept(v, len)
  {
    hide Pw, Safe, LargeText, Printed, Readable, Unsigned, ReadValue, Places, PowerCount;
    LargeReads(sn, v, len);
    LargeExact(sn, v, len);
    RoundTrip(sn, v, 10);
  }

  /** In base 10 up to 424 limbs, and in the other bases always, only a zero with the sign 1 fails. */
  lemma RightUpTo424(sn: int, v: nat, p: seq<Limb>, base: nat)
    requires 2 <= base <= 36 && Norm(p) && v == Val(p) && (base == 10 ==> |p| <= 424)
    requires -1 <= sn <= 1 && (sn < 0 ==> v > 0) && (sn == 0 ==> v == 0)
    ensures Numeral(Output(sn, v, |p|, base), sn * v, base) <==> sn == 0 || v > 0
  {
    hide Val, Safe, Output, Numeral, PowerCount;
    OutputExact(sn, v, p, base);
    if Large(|p|, base) {
      ValTop(p);
      assert Places(|p|) < 4096;
      ShortNumbersSafe(v, |p|);
    }
  }

  /** 10^4090 + 7 * 10^1024 is printed as another number. */
  lemma LargeWrong()
    ensures var p := LimbsOf(Bad()); |p| == 425 && !Numeral(Output(1, Bad(), |p|, 10), Bad(), 10)
  {
    hide Val, Pw, Safe, Output, Numeral, PowerCount, Bad, Places, LimbsOf;
    var p := LimbsOf(Bad());
    BadSize();
    BadUnsafe();
    LimbCount(p, 424);
    OutputExact(1, Bad(), p, 10);
  }

  // ----- mpz_get_str -----

  /** The digits by the direct routes: groups of bits, chunks of nine digits, division by a power of the base. */
  method DirectRoute(p: seq<Limb>, base: nat) returns (ds: seq<int>)
    requires 2 <= base <= 36
    ensures Below(ds, base) && DVal(ds, base) == Val(p)
  {
    hide Val, DVal;
    if PowerOfTwoBase(base) {
      var shift := 0;
      TwoZero();
      while Two(shift) < base
        invariant shift <= 5 && (shift == 0 || Two(shift - 1) < base)
        decreases 5 - shift
      {
        SmallTwos(shift, base);
        shift := shift + 1;
      }
      ShiftIs(shift, base);
      ds := BitGroups(p, shift);
    } else if base == 10 {
      ds := TenDigits(p);
    } else {
      ds := PowerDigits(p, base);
    }
  }

  lemma SmallTwos(shift: nat, base: nat)
    requires Two(shift) < base <= 36 && PowerOfTwoBase(base) && shift <= 5
    ensures shift < 5
  {
    assert Two(5) == 32;
  }

  lemma ShiftIs(shift: nat, base: nat)
    requires PowerOfTwoBase(base) && shift <= 5 && Two(shift) >= base && (shift == 0 || Two(shift - 1) < base)
    ensures 1 <= shift && Two(shift) == base
  {
    assert Two(0) == 1 && Two(1) == 2 && Two(2) == 4 && Two(3) == 8 && Two(4) == 16 && Two(5) == 32;
  }

  lemma LargeLong(len: nat)
    requires len <= 2
    ensures Places(len) <= THRESHOLD
  {
  }

  method GetStr(x: Mpz, base: nat) returns (s: string, ok: bool)
    requires x.Ok() && 2 <= base <= 36
    ensures 32 * |x.p| + 256 <= BIT_LIMIT ==> ok
    ensures ok ==> s == Output(x.sn, x.Mag(), |x.p|, base)
  {
    hide Val, DVal, Canon, LargeText, Places;
    if x.sn == 0 { return "0", true; }
    var p := Digits(x.p);
    AllDigits(x.p);
    if |p| <= 2 { LargeLong(|p|); }
    if base == 10 && Places(|p|) > THRESHOLD {
      s, ok := GetStrLarge(x);
      return;
    }
    var ds := DirectRoute(p, base);
    ds := StripZeros(ds, base);
    CanonUnique(ds, base, x.Mag());
    s := Layout(ds, x.sn < 0);
    ok := true;
  }

  /** x - x in place keeps the sign 1, and mpz_get_str then answers the empty text. */
  method EqualDifferenceText(x: Mpz, y: Mpz, base: nat) returns (s: string, ok: bool)
    requires x.Ok() && y.Ok() && x != y && x.sn == y.sn == 1 && x.Mag() == y.Mag() && 2 <= base <= 36
    modifies x
    ensures x.Value() == 0 && ok && s == ""
  {
    hide Val, Output;
    SubMpz(x, x, y);
    ZeroShort(x.p);
    s, ok := GetStr(x, base);
    EmptyOutput(x.p, base);
  }

  /** 3 * 2^e. */
  method ThreeShifted(e: nat) returns (z: Mpz)
    requires e <= 96
    ensures fresh(z) && z.Ok() && z.sn == 1 && z.Mag() == 3 * Two(e)
  {
    hide Val, Two;
    var three := new Mpz();
    SetInt(three, 3);
    PowerMod.NoSign(three.sn, three.Mag());
    z := new Mpz();
    var ok := Mul2exp(z, three, e);
  }

  /** Integer#pow hands such a zero out: (3 * 2^32).pow(3, 3 * 2^96).to_s(base) is the empty text. */
  method EmptyPowerText(base: nat) returns (s: string, ok: bool)
    requires 2 <= base <= 36
    ensures ok && s == ""
  {
    hide Val, Two, Pw, Output, PowerMod.Within, PowerMod.Answer, PowerMod.Leaves;
    var x := ThreeShifted(32);
    var n := ThreeShifted(96);
    CubeSizes(x.p, n.p);
    var r, o := PowerMod.PowMod(x, 3, n);
    ZeroShort(r.p);
    s, ok := GetStr(r, base);
    EmptyOutput(r.p, base);
  }

  lemma CubeSizes(x: seq<Limb>, n: seq<Limb>)
    requires Norm(x) && Norm(n) && Val(x) == 3 * Two(32) && Val(n) == 3 * Two(96)
    ensures |n| == 4 && PowerMod.Positive(n) && PowerMod.Within(1, x, n) == 3 * Two(32)
    ensures PowerMod.Leaves(3 * Two(32), 3, n, 2) && PowerMod.Answer(3 * Two(32), 3, 3, n, 2) == 0
  {
    hide Val, Two, Pw, PowerMod.Within, PowerMod.Answer, PowerMod.Leaves;
    PowerMod.CubePowers();
    TwoPw(1);
    TwoPw(2);
    TwoPw(3);
    TwoPw(4);
    TwoAdd(96, 32);
    LimbCount(x, 1);
    LimbCount(n, 3);
    PowerMod.ZeroWithSign(n);
    PowerMod.SameLength(x, n);
  }

  lemma EmptyOutput(p: seq<Limb>, base: nat)
    requires 2 <= base <= 36 && Norm(p) && Val(p) == 0
    ensures Output(1, 0, |p|, base) == ""
  {
    hide Val, Printed, Places;
    ZeroOutput(p, base);
    PrintedEmpty(1, 0, base);
  }

  /** Printing and reading give the integer back exactly where the text is right or the integer is zero. */
  method PrintAndRead(x: Mpz, z: Mpz, base: nat) returns (ok: bool)
    requires x.Ok() && 2 <= base <= 36 && x != z && 32 * |x.p| + 256 <= BIT_LIMIT
    modifies z
    ensures ok && z.Ok()
    ensures z.Value() == x.Value() <==> (Large(|x.p|, base) ==> Kept(x.Mag(), |x.p|))
  {
    hide Val, Output, Numeral, Readable, Unsigned, ReadValue, Safe, Places;
    var s;
    s, ok := GetStr(x, base);
    OutputReads(x.sn, x.Mag(), x.p, base);
    ok := SetStr(z, s, base);
  }

  /** The output is readable, and stands for the number unless a division lost its dividend. */
  lemma OutputReads(sn: int, v: nat, p: seq<Limb>, base: nat)
    requires 2 <= base <= 36 && Norm(p) && v == Val(p)
    requires -1 <= sn <= 1 && (sn < 0 ==> v > 0) && (sn == 0 ==> v == 0)
    ensures var s := Output(sn, v, |p|, base);
      Readable(Unsigned(s), base) && (ReadValue(s, base) == sn * v <==> (Large(|p|, base) ==> Kept(v, |p|)))
  {
    hide Val, Safe, LargeText, Printed, Readable, Unsigned, ReadValue, Places, PowerCount;
    ValBound(p);
    if v == 0 { ZeroOutput(p, base); }
    if sn != 0 && Large(|p|, base) {
      LargeReads(sn, v, |p|);
    } else {
      DirectReads(sn, v, base);
    }
  }

  lemma DirectReads(sn: int, v: nat, base: nat)
    requires 2 <= base <= 36 && -1 <= sn <= 1 && (sn == 0 ==> v == 0)
    ensures var s := Printed(sn, v, base); Readable(Unsigned(s), base) && ReadValue(s, base) == sn * v
  {
    hide Canon, Text, Readable, Unsigned, SignOf, DVal, TextDigits;
    if sn != 0 {
      CanonValue(v, base);
      SignedText(sn < 0, Canon(v, base), base);
    } else {
      ZeroText(base);
    }
  }

  // ----- to_s -----

  const WORD: int := 0x1_0000_0000_0000_0000

  /** sp_bigint_to_int: the low 64 bits, as a signed number. */
  method ToInt(x: Mpz) returns (n: int)
    requires x.Ok()
    ensures -WORD <= 2 * n < WORD && (n - x.Value()) % WORD == 0
    ensures SmallPath(x.p) ==> n == x.Value()
  {
    hide Val;
    if |x.p| == 0 { ValEmpty(x.p); return 0; }
    var v: int := x.p[0];
    if |x.p| > 1 { v := v + x.p[1] * BASE; }
    TwoLimbs(x.p, v);
    var u := if x.sn < 0 && v > 0 then WORD - v else v;
    n := if 2 * u < WORD then u else u - WORD;
    SignedWord(x.sn, x.Mag(), v, n);
  }

  lemma SignedWord(sn: int, m: nat, v: int, n: int)
    requires -1 <= sn <= 1 && (sn == 0 ==> m == 0) && 0 <= v < WORD && (m - v) % WORD == 0
    requires var u := if sn < 0 && v > 0 then WORD - v else v; n == if 2 * u < WORD then u else u - WORD
    ensures (n - sn * m) % WORD == 0 && (m == v && 2 * v < WORD ==> n == sn * m)
  {
    var k := (m - v) / WORD;
    if sn == 1 {
      if 2 * v < WORD { WordMultiple(n - m, -k); } else { WordMultiple(n - m, -k - 1); }
    } else if sn == -1 {
      if n == -v { WordMultiple(n + m, k); } else { WordMultiple(n + m, k + 1); }
    } else {
      WordMultiple(v, -k);
      if k != 0 { MulLe(1, if k > 0 then k else -k, WORD); assert false; }
    }
  }

  lemma WordMultiple(d: int, k: int)
    requires d == WORD * k
    ensures d % WORD == 0
  {
  }

  /** At most one limb, or two with the top bit clear. */
  predicate SmallPath(p: seq<Limb>) {
    |p| <= 1 || (|p| == 2 && 2 * p[1] < BASE)
  }

  /** sp_bigint_to_s: small numbers as a machine integer, the others by mpz_get_str. */
  method ToS(x: Mpz) returns (s: string, ok: bool)
    requires x.Ok()
    ensures 32 * |x.p| + 256 <= BIT_LIMIT ==> ok
    ensures ok ==> (Numeral(s, x.Value(), 10) <==> (Large(|x.p|, 10) ==> Kept(x.Mag(), |x.p|)))
  {
    hide Val, Output, Numeral, Safe, Places;
    if SmallPath(x.p) {
      var n := ToInt(x);
      s, ok := Decimal(n), true;
      DecimalNumeral(n);
      LargeLong(|x.p|);
      return;
    }
    s, ok := GetStr(x, 10);
    ValTop(x.p);
    OutputExact(x.sn, x.Mag(), x.p, 10);
  }

  /** What the C library prints for a machine integer. */
  function Decimal(n: int): string {
    Printed(if n < 0 then -1 else if n == 0 then 0 else 1, Abs(n), 10)
  }

  lemma DecimalNumeral(n: int)
    ensures Numeral(Decimal(n), n, 10)
  {
    hide Printed, Val, Numeral;
    ValEmpty([]);
    if n == 0 {
      ZeroOutput([], 10);
    } else {
      DirectNumeral(if n < 0 then -1 else 1, Abs(n), 10);
    }
  }

  /** The low two limbs are the number modulo 2^64. */
  lemma TwoLimbs(p: seq<Limb>, v: int)
    requires |p| > 0 && v == p[0] + if |p| > 1 then p[1] * BASE else 0
    ensures 0 <= v < WORD && (Val(p) - v) % WORD == 0 && (|p| <= 2 ==> Val(p) == v)
  {
    hide Val, Pw;
    var k := if |p| > 1 then 2 else 1;
    LowLimbs(p);
    if |p| > 2 {
      ValAppend(p[..2], p[2..]);
      assert p[..2] + p[2..] == p;
    } else {
      assert p[..k] == p;
    }
  }

  lemma LowLimbs(p: seq<Limb>)
    requires |p| > 0
    ensures Val(p[..1]) == p[0] && Pw(2) == WORD && (|p| > 1 ==> Val(p[..2]) == p[0] + p[1] * BASE)
  {
    assert Pw(1) == BASE && Pw(2) == BASE * Pw(1);
    hide Val;
    ValTake(p, 0);
    ValEmpty(p[..0]);
    if |p| > 1 { ValTake(p, 1); }
  }
}
