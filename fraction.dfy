/** The `cache_heuristic` setting (an `f32` in src/lib.rs:165 and src/config.rs:43),
    read as an exact non-negative fraction. */
module Fractions {
  /** `numerator / denominator`; a zero denominator reads as zero. */
  datatype Fraction = Fraction(numerator: nat, denominator: nat) {
    /** `(n as f64 * self) as u64`: the product, rounded toward zero. */
    function Of(n: nat): (r: nat)
      ensures denominator != 0 ==> r * denominator <= n * numerator < (r + 1) * denominator
      ensures denominator == 0 ==> r == 0
    {
      if denominator == 0 then 0 else n * numerator / denominator
    }
  }

  /** The `f32` literal `0.1` (ten percent of the time since the last
      modification), whose exact value is 13421773 / 2^27, slightly above one tenth. */
  const F32_ONE_TENTH := Fraction(13421773, 134217728)

  /** The product grows with the time it is taken of. */
  lemma {:induction false} OfMonotone(f: Fraction, m: nat, n: nat)
    requires m <= n
    ensures f.Of(m) <= f.Of(n)
  {
    if f.denominator != 0 {
      assert m * f.numerator <= n * f.numerator by {
        MulMonotone(m, n, f.numerator);
      }
      if f.Of(m) > f.Of(n) {
        assert (f.Of(n) + 1) * f.denominator <= f.Of(m) * f.denominator by {
          MulMonotone(f.Of(n) + 1, f.Of(m), f.denominator);
        }
      }
    }
  }

  /** A fraction no larger than one takes no more than the whole. */
  lemma {:induction false} OfAtMost(f: Fraction, n: nat)
    requires f.numerator <= f.denominator
    ensures f.Of(n) <= n
  {
    if f.denominator != 0 {
      MulMonotone(f.numerator, f.denominator, n);
      if f.Of(n) > n {
        MulMonotone(n + 1, f.Of(n), f.denominator);
      }
    }
  }

  lemma {:induction false} MulMonotone(a: nat, b: nat, c: nat)
    requires a <= b
    ensures a * c <= b * c
  {
  }
}
