/** Bitwise operators on limbs, read as binary numerals, and the bit tricks built on them. */
module LimbBits {
  import opened Shifts

  /** The C operator x & y on unsigned values. */
  function And(x: nat, y: nat): (r: nat)
    ensures r <= x && r <= y
  {
    if x == 0 || y == 0 then 0 else 2 * And(x / 2, y / 2) + (x % 2) * (y % 2)
  }

  lemma {:induction false} AndSelf(x: nat)
    ensures And(x, x) == x
  {
    if x > 0 {
      AndSelf(x / 2);
    }
  }

  /** Number of significant bits. */
  function BitLen(x: nat): nat {
    if x == 0 then 0 else 1 + BitLen(x / 2)
  }

  /** Trailing zero bits of a nonzero value (__builtin_ctz). */
  function Ctz(x: nat): nat
    requires x > 0
  {
    if x % 2 == 1 then 0 else 1 + Ctz(x / 2)
  }

  lemma OnesEven(h: nat)
    requires h > 0
    ensures And(2 * h, 2 * h + 1) == 2 * h
  {
    AndSelf(h);
    assert (2 * h + 1) / 2 == h;
  }

  lemma OnesOdd(h: nat)
    ensures And(2 * h + 1, 2 * h + 2) == 2 * And(h, h + 1)
    ensures BitLen(2 * h + 1) == 1 + BitLen(h)
  {
    assert (2 * h + 1) / 2 == h && (2 * h + 2) / 2 == h + 1;
  }

  /** (x & (x + 1)) == 0 is the test for 2^k - 1. */
  lemma {:induction false} OnesTest(x: nat)
    ensures And(x, x + 1) == 0 <==> x + 1 == Two(BitLen(x))
  {
    if x > 0 {
      var h := x / 2;
      if x % 2 == 0 {
        hide And;
        assert x == 2 * h;
        OnesEven(h);
        TwoEven(BitLen(x));
      } else {
        hide And, BitLen;
        assert x == 2 * h + 1;
        OnesOdd(h);
        OnesTest(h);
        TwoEven(BitLen(x));
      }
    }
  }

  lemma TwoEven(e: nat)
    requires e > 0
    ensures Two(e) == 2 * Two(e - 1)
  {
  }

  /** (x & (x - 1)) == 0 is the test for 2^k. */
  lemma {:induction false} PowerTest(x: nat)
    requires x > 0
    ensures And(x, x - 1) == 0 <==> x == Two(Ctz(x))
  {
    if x % 2 == 0 {
      assert (x - 1) / 2 == x / 2 - 1;
      PowerTest(x / 2);
    } else {
      assert (x - 1) / 2 == x / 2;
      AndSelf(x / 2);
    }
  }

  /** x & (x - 1) clears the lowest set bit. */
  lemma {:induction false} ClearLowest(x: nat)
    requires x > 0
    ensures And(x, x - 1) == x - Two(Ctz(x)) && Two(Ctz(x)) <= x
  {
    if x % 2 == 0 {
      assert (x - 1) / 2 == x / 2 - 1;
      ClearLowest(x / 2);
    } else {
      assert (x - 1) / 2 == x / 2;
      AndSelf(x / 2);
    }
  }

  lemma {:induction false} BitLenBound(x: nat, e: nat)
    requires x < Two(e)
    ensures BitLen(x) <= e
  {
    if x > 0 {
      BitLenBound(x / 2, e - 1);
    }
  }

  lemma {:induction false} CtzBound(x: nat, e: nat)
    requires 0 < x < Two(e)
    ensures Ctz(x) < e
  {
    if x % 2 == 0 {
      CtzBound(x / 2, e - 1);
    }
  }

  /** limb_popcount. */
  function Popcount(x: nat): nat {
    if x == 0 then 0 else x % 2 + Popcount(x / 2)
  }
}
