/** Integer powers and their laws. */
module Powers {
  import opened Limbs

  /** b to the e-th power. */
  function Power(b: int, e: nat): int {
    if e == 0 then 1 else b * Power(b, e - 1)
  }

  lemma PowerStep(b: int, e: nat)
    ensures Power(b, e + 1) == b * Power(b, e) && Power(b, 0) == 1
  {
  }

  lemma PowerFirst(b: int)
    ensures Power(b, 0) == 1 && Power(b, 1) == b
  {
    assert Power(b, 1) == b * Power(b, 0);
  }

  lemma {:induction false} PowerSum(b: int, d: nat, e: nat)
    ensures Power(b, d + e) == Power(b, d) * Power(b, e)
  {
    if d > 0 {
      PowerSum(b, d - 1, e);
      Assoc(b, Power(b, d - 1), Power(b, e));
    }
  }

  lemma {:induction false} PowerPositive(b: int, e: nat)
    requires b > 0
    ensures Power(b, e) > 0
  {
    if e > 0 {
      PowerPositive(b, e - 1);
      PowerStep(b, e - 1);
    }
  }

  lemma {:induction false} PowerMono(b: int, d: nat, e: nat)
    requires b >= 1 && d <= e
    ensures 0 < Power(b, d) <= Power(b, e)
    decreases e
  {
    hide Power;
    PowerPositive(b, d);
    if d < e {
      PowerMono(b, d, e - 1);
      PowerStep(b, e - 1);
      MulLe(1, b, Power(b, e - 1));
    }
  }
}
