/**
  The summation of an Integer array that stops before the first overflow
  (lib/sp_array.h:289-316): a branch-free pass computes a wrapped total and the
  OR of all elements, and the OR bounds every prefix when it is small enough.
 */
module SumPrefix {
  const WORD: int := 0x1_0000_0000_0000_0000
  const MAX: int := 0x7FFF_FFFF_FFFF_FFFF
  const MIN: int := -0x8000_0000_0000_0000

  predicate InRange(v: int) {
    MIN <= v <= MAX
  }

  /** The conversion to an unsigned word. */
  function Unsigned(v: int): (u: nat)
    ensures u < WORD
  {
    v % WORD
  }

  /** The conversion of an unsigned word back to a signed one. */
  function Signed(u: nat): int
    requires u < WORD
  {
    if u <= MAX then u else u - WORD
  }

  /** The C operator x | y on unsigned values. */
  function Or(x: nat, y: nat): (r: nat)
    ensures r >= x && r >= y
  {
    if x == 0 then y
    else if y == 0 then x
    else 2 * Or(x / 2, y / 2) + if x % 2 == 1 || y % 2 == 1 then 1 else 0
  }

  function Sum(s: seq<int>): int {
    if s == [] then 0 else Sum(s[..|s| - 1]) + s[|s| - 1]
  }

  /** Reading left to right from seed, n is where checked addition stops. */
  ghost predicate StopsAt(s: seq<int>, seed: int, n: nat) {
    && n <= |s|
    && (forall k :: 0 <= k <= n ==> InRange(seed + Sum(s[..k])))
    && (n < |s| ==> !InRange(seed + Sum(s[..n + 1])))
  }

  /** In the 64-bit range up to n, and out of it one element later. */
  lemma StopsMeans(s: seq<int>, seed: int, n: nat)
    requires StopsAt(s, seed, n)
    ensures n <= |s|
    ensures forall k :: 0 <= k <= n ==> -0x8000_0000_0000_0000 <= seed + Sum(s[..k]) < 0x8000_0000_0000_0000
    ensures n < |s| ==> var v := seed + Sum(s[..n + 1]); v < -0x8000_0000_0000_0000 || v >= 0x8000_0000_0000_0000
  {
    hide Sum;
  }

  /** The sum of the parts is the sum. */
  lemma {:induction false} SumAppend(s: seq<int>, t: seq<int>)
    ensures Sum(s + t) == Sum(s) + Sum(t)
    ensures |t| == 1 ==> Sum(t) == t[0]
    decreases |t|
  {
    if t == [] {
      assert s + t == s;
    } else {
      assert (s + t)[..|s + t| - 1] == s + t[..|t| - 1];
      SumAppend(s, t[..|t| - 1]);
    }
  }

  /** The stopping point is unique. */
  lemma StopsOnce(s: seq<int>, seed: int, m: nat, n: nat)
    requires StopsAt(s, seed, m) && StopsAt(s, seed, n)
    ensures m == n
  {
    hide Sum, InRange;
    if m < n { assert false; }
    if n < m { assert false; }
  }

  lemma SumStep(s: seq<int>, k: nat)
    requires k < |s|
    ensures Sum(s[..k + 1]) == Sum(s[..k]) + s[k]
  {
    assert s[..k + 1][..k] == s[..k];
  }

  lemma SumNone(s: seq<int>)
    requires s == []
    ensures Sum(s) == 0
  {
  }

  /** Terms in [0, bound]: every prefix stays between 0 and bound times its length. */
  lemma {:induction false} PrefixBound(s: seq<int>, bound: nat, k: nat)
    requires k <= |s| && forall i :: 0 <= i < |s| ==> 0 <= s[i] <= bound
    ensures 0 <= Sum(s[..k]) <= bound * k
  {
    if k > 0 {
      PrefixBound(s, bound, k - 1);
      SumStep(s, k - 1);
      assert bound * k == bound * (k - 1) + bound;
    }
  }

  lemma Monotone(bound: nat, k: nat, n: nat)
    requires k <= n
    ensures bound * k <= bound * n
  {
  }

  lemma WrapAdd(t: int, v: int)
    ensures (t % WORD + Unsigned(v)) % WORD == (t + v) % WORD
  {
  }

  lemma NonNegative(v: int, bound: nat)
    requires InRange(v) && Unsigned(v) <= bound <= MAX
    ensures 0 <= v <= bound
  {
  }

  /** sp_IntArray_sum_prefix over the live window s. */
  method PrefixSum(s: seq<int>, seed: int) returns (n: nat, sum: int)
    requires InRange(seed) && forall i :: 0 <= i < |s| ==> InRange(s[i])
    ensures StopsAt(s, seed, n) && sum == seed + Sum(s[..n])
  {
    hide Sum, InRange, Unsigned, Signed, Or, StopsAt;
    var total, bound := 0, 0;
    assert Sum(s[..0]) == 0 by { SumNone(s[..0]); }
    for i := 0 to |s|
      invariant 0 <= total && total == Sum(s[..i]) % WORD
      invariant 0 <= bound && forall k :: 0 <= k < i ==> Unsigned(s[k]) <= bound
    {
      SumStep(s, i);
      WrapAdd(Sum(s[..i]), s[i]);
      total := (total + Unsigned(s[i])) % WORD;
      bound := Or(bound, Unsigned(s[i]));
    }
    assert s[..|s|] == s;
    var limit := bound * |s|;
    if bound <= MAX && limit < WORD && limit <= (MAX - Unsigned(seed)) % WORD {
      FullSum(s, seed, bound);
      return |s|, Signed((Unsigned(seed) + total) % WORD);
    }
    n, sum := CheckedSum(s, seed);
  }

  /** The checked additions. */
  method CheckedSum(s: seq<int>, seed: int) returns (n: nat, sum: int)
    requires InRange(seed) && forall i :: 0 <= i < |s| ==> InRange(s[i])
    ensures StopsAt(s, seed, n) && sum == seed + Sum(s[..n])
  {
    sum := seed;
    assert Sum(s[..0]) == 0;
    hide Sum, InRange;
    for i := 0 to |s|
      invariant sum == seed + Sum(s[..i])
      invariant forall k :: 0 <= k <= i ==> InRange(seed + Sum(s[..k]))
    {
      SumStep(s, i);
      var next := sum + s[i];
      if !InRange(next) {
        return i, sum;
      }
      sum := next;
    }
    return |s|, sum;
  }

  /** The unsigned difference is the distance to the largest value, for negative seeds too. */
  lemma Headroom(seed: int)
    requires InRange(seed)
    ensures (MAX - Unsigned(seed)) % WORD == MAX - seed
  {
  }

  /** When the bound is small enough nothing overflows, and the wrapped total is exact. */
  lemma FullSum(s: seq<int>, seed: int, bound: nat)
    requires InRange(seed) && bound <= MAX && bound * |s| <= (MAX - Unsigned(seed)) % WORD
    requires forall i :: 0 <= i < |s| ==> InRange(s[i]) && Unsigned(s[i]) <= bound
    ensures StopsAt(s, seed, |s|)
    ensures Signed((Unsigned(seed) + Sum(s) % WORD) % WORD) == seed + Sum(s)
  {
    hide Sum, Unsigned, Signed;
    Headroom(seed);
    forall i | 0 <= i < |s| ensures 0 <= s[i] <= bound {
      NonNegative(s[i], bound);
    }
    forall k | 0 <= k <= |s| ensures InRange(seed + Sum(s[..k])) {
      PrefixBound(s, bound, k);
      Monotone(bound, k, |s|);
    }
    PrefixBound(s, bound, |s|);
    assert s[..|s|] == s;
    WrapSum(seed, Sum(s));
  }

  lemma WrapSum(seed: int, t: int)
    requires InRange(seed + t)
    ensures Signed((Unsigned(seed) + t % WORD) % WORD) == seed + t
  {
  }
}
