/** The "more detail" / "less detail" controls (src/main.rs, `inc_maxiter` and
    `dec_maxiter`): the iteration budget moves by the largest power of ten not
    above a third of it, or by 1 when that third (integer division) is 0.
    "Less detail" never gives a budget below 1; "more detail" can wrap round
    the u32 range, down to 0. */
module MaxIter {

  import opened Numeric
  import opened Fractals

  predicate IsPowerOfTen(p: nat)
    decreases p
  {
    p == 1 || (p >= 10 && p % 10 == 0 && IsPowerOfTen(p / 10))
  }

  /** The largest power of ten not above `n`: `10^floor(log10(n))`. */
  function PowerOfTenAtMost(n: nat): (p: nat)
    requires n >= 1
    ensures IsPowerOfTen(p)
    ensures p <= n < 10 * p
  {
    if n < 10 then 1 else 10 * PowerOfTenAtMost(n / 10)
  }

  /** `10.powi(max(0, log10(i / 3) as i32)) as u32`. For `i / 3 == 0` the
      logarithm is minus infinity, the cast saturates and the `max` gives
      exponent 0; otherwise the cast truncates the non-negative logarithm. */
  function DetailStep(i: U32): (s: nat)
    ensures s >= 1 && IsPowerOfTen(s)
    ensures i / 3 == 0 ==> s == 1
    ensures i / 3 >= 1 ==> s <= i / 3 < 10 * s
  {
    if i / 3 == 0 then 1 else PowerOfTenAtMost(i / 3)
  }

  /** The closure passed to `change_maxiter` by `inc_maxiter`; the u32
      addition wraps. */
  function IncMaxiter(i: U32): (r: U32)
    ensures r > i <==> i < 3_294_967_296
  {
    assert i >= 3_000_000_000 ==> DetailStep(i) == 1_000_000_000 by {
      if i >= 3_000_000_000 {
        GigaStep(i);
      }
    }
    (i + DetailStep(i)) % U32_LIMIT
  }

  /** The closure passed to `change_maxiter` by `dec_maxiter`; the u32
      subtraction wraps, and the result is then raised to at least 1. */
  function DecMaxiter(i: U32): (r: U32)
    ensures r >= 1
    ensures i >= 1 ==> DetailStep(i) <= i && r + DetailStep(i) >= i
    ensures i >= 2 ==> r < i
    ensures i == 1 ==> r == 1
  {
    Max((i - DetailStep(i)) % U32_LIMIT, 1)
  }

  lemma {:induction false} PowersOfTenAreSpaced(a: nat, b: nat)
    requires IsPowerOfTen(a) && IsPowerOfTen(b) && a < b
    ensures 10 * a <= b
    decreases b
  {
    if a == 1 {
      assert b >= 10;
    } else {
      PowersOfTenAreSpaced(a / 10, b / 10);
    }
  }

  lemma PowerOfTenAtMostMonotone(m: nat, n: nat)
    requires 1 <= m <= n
    ensures PowerOfTenAtMost(m) <= PowerOfTenAtMost(n)
  {
    var a, b := PowerOfTenAtMost(m), PowerOfTenAtMost(n);
    if b < a {
      PowersOfTenAreSpaced(b, a);
    }
  }

  /** The step never shrinks as the budget grows. */
  lemma DetailStepMonotone(i: U32, j: U32)
    requires i <= j
    ensures DetailStep(i) <= DetailStep(j)
  {
    if i / 3 >= 1 {
      PowerOfTenAtMostMonotone(i / 3, j / 3);
    }
  }

  /** "Less detail" undoes "more detail" at least: after one increment and one
      decrement the budget is not above where it started. */
  lemma DecAfterIncNotAbove(i: U32)
    requires 1 <= i < 3_294_967_296
    ensures DecMaxiter(IncMaxiter(i)) <= i
  {
    var j := IncMaxiter(i);
    assert j == i + DetailStep(i);
    DetailStepMonotone(i, j);
  }

  lemma TimesTenIsPowerOfTen(p: nat)
    requires IsPowerOfTen(p)
    ensures IsPowerOfTen(10 * p)
  {
    assert (10 * p) / 10 == p;
  }

  /** Every budget from 3000000000 to the top of the u32 range has a third
      between 10^9 and 10^10, so its step is 10^9. */
  lemma GigaStep(i: U32)
    requires i >= 3_000_000_000
    ensures DetailStep(i) == 1_000_000_000
  {
    var giga := 1_000_000_000;
    TimesTenIsPowerOfTen(1);
    TimesTenIsPowerOfTen(10);
    TimesTenIsPowerOfTen(100);
    TimesTenIsPowerOfTen(1_000);
    TimesTenIsPowerOfTen(10_000);
    TimesTenIsPowerOfTen(100_000);
    TimesTenIsPowerOfTen(1_000_000);
    TimesTenIsPowerOfTen(10_000_000);
    TimesTenIsPowerOfTen(100_000_000);
    var s := PowerOfTenAtMost(i / 3);
    if s < giga {
      PowersOfTenAreSpaced(s, giga);
    } else if s > giga {
      PowersOfTenAreSpaced(giga, s);
    }
    assert s == giga;
  }

  /** Near the top of the u32 range "more detail" wraps round to a smaller
      budget: the step for 4294967295 is 10^9. */
  lemma IncMaxiterWraps()
    ensures DetailStep(4_294_967_295) == 1_000_000_000
    ensures IncMaxiter(4_294_967_295) == 999_999_999
  {
    GigaStep(4_294_967_295);
  }

  /** "More detail" from 3294967296 wraps to a budget of exactly 0, where
      every `calc` is NaN; "less detail" from 0 then wraps to the largest
      budget, 4294967295. So one "more" and one "less" can end far above
      where they started. */
  lemma IncMaxiterReachesZero(f: Fractal, p: Complex)
    requires f.maxiter == 3_294_967_296
    ensures IncMaxiter(3_294_967_296) == 0
    ensures f.ChangeMaxiter(IncMaxiter).Calc(p) == NaN
    ensures DecMaxiter(0) == 4_294_967_295
    ensures DecMaxiter(IncMaxiter(3_294_967_296)) > 3_294_967_296
  {
    GigaStep(3_294_967_296);
    assert 3_294_967_296 + 1_000_000_000 == U32_LIMIT;
    assert IncMaxiter(3_294_967_296) == 0;
    assert f.ChangeMaxiter(IncMaxiter).maxiter == 0;
    assert DetailStep(0) == 1;
    assert (0 - 1) % U32_LIMIT == 4_294_967_295;
  }

  /** After "less detail" the evaluator's normalisation is defined: the budget
      is at least 1, so `calc` never divides by zero. */
  lemma DecKeepsCalcDefined(f: Fractal, p: Complex)
    ensures f.ChangeMaxiter(DecMaxiter).maxiter >= 1
    ensures f.ChangeMaxiter(DecMaxiter).Calc(p).Num?
  {
  }
}
