# Simple and compound interest

This project models the two interest calculators of `prg7.py` and proves properties about them.

- `calculate_simple_interest(principal, rate, time)` returns `principal * rate * time / 100`. The rate is a percentage.
- `calculate_compound_interest(principal, rate, time, n_compounds)` does three things. It turns the percentage into a fraction. It computes the total amount in closed form, with one call `principal * math.pow(1 + fraction / n_compounds, n_compounds * time)`. It returns the pair (compound interest, total amount).

Everything is in one module, `Interest` (`interest.dfy`). Arithmetic uses exact Dafny `real`s, not IEEE doubles. `math.pow` becomes `Pow(x, k)`, defined by recursion on a natural exponent. The compound calculator takes `periods: nat`, a whole number of compounding periods. It stands for `n_compounds * time`. Lemmas that compare against simple interest link the two with the requirement `periods == nCompounds * time`. The code divides by `n_compounds`, so the compound calculator requires `nCompounds >= 1`.

Two reference definitions sit beside the closed formula:

- `Accrue` credits interest period by period, each time on the principal plus the interest already credited. This is what "compound interest" means. It agrees with the closed form only when `n_compounds * time` is a whole number, which is the case the model covers.
- `SimpleInterest` is the other calculator. The Bernoulli lemmas compare compound interest against it.

## Model

| member | source | states |
|---|---|---|
| `Interest.SimpleInterest` | prg7.py:3-9 | The result is exactly principal × rate × time / 100: one hundred times the result equals the product of the three inputs. |
| `Interest.SimpleInterestHomogeneous` | prg7.py:8 | Scaling any one of principal, rate or time by k scales the simple interest by k. |
| `Interest.SimpleInterestAdditive` | prg7.py:8 | In each of principal, rate and time separately, the interest on a sum is the sum of the interests. With homogeneity this makes the interest linear in each argument. |
| `Interest.SimpleInterestNonNeg` | prg7.py:8 | For a non-negative principal, rate and time, the simple interest is non-negative, so the total `P + SI` is at least the principal. |
| `Interest.SimpleInterestZero` | prg7.py:8 | The simple interest is zero if and only if the principal, the rate or the time is zero. Both directions are proved. |
| `Interest.SimpleInterestExample` | prg7.py:40-42 | For P = 10000, R = 5 and T = 3, the interest is 1500 and the total `P + SI` is 11500. |
| `Interest.PeriodFactor` | prg7.py:27-30 | The per-period factor is 1 + (rate/100)/n_compounds. It is always at least 1 for a non-negative rate. Multiplying its excess over 1 by n_compounds × 100 gives back the rate. |
| `Interest.CompoundInterest` | prg7.py:11-35 | Returns (interest, total) with interest = total − principal. For a non-negative principal and rate, the total is at least the principal and the interest is non-negative. |
| `Interest.Pow` | prg7.py:30 | The whole-exponent power that stands in for `math.pow`. Its properties are stated as lemmas: `PowOne`, `PowNonNeg`, `PowAtLeastOne`, `PowAdd`, `PowMonotone` and `Bernoulli`. |
| `Interest.PowOne` | prg7.py:30 | 1 raised to any number of periods is 1. |
| `Interest.PowNonNeg` | prg7.py:30 | A non-negative growth factor raised to any power is non-negative. |
| `Interest.PowAtLeastOne` | prg7.py:30 | A growth factor of at least 1 raised to any power is at least 1. |
| `Interest.PowAdd` | prg7.py:30 | Exponents add: x^(a+b) = x^a · x^b. |
| `Interest.PowMonotone` | prg7.py:30 | For a factor of at least 1, more periods never give a smaller power. |
| `Interest.Bernoulli` | prg7.py:30 | Bernoulli's inequality: (1 + x)^n ≥ 1 + n·x for every x ≥ −1 and every whole n. |
| `Interest.BernoulliStrict` | prg7.py:30 | The inequality is strict for x > 0 and n ≥ 2. |
| `Interest.CompoundTotalNonNeg` | prg7.py:27-30 | For a non-negative principal and any rate of at least −100 × n_compounds, the total amount is non-negative. |
| `Interest.CompoundIsPeriodicCrediting` | prg7.py:27-30 | The closed-form total equals `Accrue`, which credits interest on the running balance at every compounding interval. |
| `Interest.CompoundZeroPeriods` | prg7.py:30-35 | With zero periods (time 0), the result is (0, principal) for any rate. |
| `Interest.CompoundZeroRate` | prg7.py:27-35 | With rate 0 and any `n_compounds >= 1`, the result is (0, principal) for any number of periods. |
| `Interest.CompoundReinvest` | prg7.py:30 | Compounding for a periods and then reinvesting the total for b periods gives the total of compounding for a + b periods. |
| `Interest.CompoundGrowsWithPeriods` | prg7.py:30 | For a non-negative principal and rate, the total never decreases as the number of periods grows. |
| `Interest.LinearGrowthIsSimple` | prg7.py:8 | When periods = n_compounds × time, growing the principal linearly by the per-period rate once per period gives the principal plus simple interest. |
| `Interest.CompoundAtLeastSimple` | prg7.py:30-33 | Take a non-negative principal, a whole number of periods = n_compounds × time, and any rate of at least −100 × n_compounds (this includes every non-negative rate). Then the compound interest is at least the simple interest for the same P, R, T, and the compound total is at least P + SI. |
| `Interest.CompoundExceedsSimple` | prg7.py:30-33 | For a positive principal and rate and at least two periods, the compound interest is strictly larger than the simple interest. |
| `Interest.CompoundOnePeriodIsSimple` | prg7.py:30-33 | With exactly one period (n_compounds × time = 1), the compound interest equals the simple interest. So the comparison is not strict in general. |
| `Interest.CompoundAnnualExample` | prg7.py:40-42 | Compounding 10000 at 5 % annually for 3 years gives exactly (1576.25, 11576.25). |
| `Interest.CompoundMonthlyExampleBeatsSimple` | prg7.py:78-80 | For the example inputs with monthly compounding (N = 12, 36 periods), the compound total is above the simple total of 11500. This is the comparison the script prints. |

## Left out

- The example driver and all console output (prg7.py:37-80): the labels, the `print` calls and the currency formatting. Only the values the driver feeds into the calculators appear, in the example lemmas.
- IEEE-754 rounding. The model uses exact reals, so results agree with the code's only up to floating-point error.
- Overflow. `math.pow` raises `OverflowError` when the power does not fit in a double, for example rate 100, `n_compounds` 1 and time 1100. A product such as `principal * rate * time` can also become infinite. The model's reals never overflow, so it returns a finite result in these cases.
- Non-whole exponents. `math.pow(base, n_compounds * time)` accepts any real exponent. The model has only a whole number of periods. A time such as 2.5 years with annual compounding is not covered. A negative exponent, from a negative time or a negative `n_compounds`, is not covered either.
- `math.pow` raises an error for a negative base with a non-integer exponent. With a whole exponent that cannot happen, so the model has no such error path.
- `CompoundInterest`: requires `nCompounds >= 1`, so it does not model the `ZeroDivisionError` for `n_compounds == 0` or the result for a negative `n_compounds`. It also takes a whole `n_compounds`, where the code would accept a float.
- The default `n_compounds=1`. Callers pass `1` explicitly. In that case `periods` is the number of years.
- The approximate monthly total for the example inputs (about 11614.72). It depends on float rounding and on display formatting. `CompoundMonthlyExampleBeatsSimple` proves only that it is above 11500.
- Determinism. Dafny functions are deterministic, so there is nothing to state.
- Input validation for non-finite or negative values. The code performs none, and neither does the model. Negative principals and rates are accepted in both calculators. A negative time is accepted only by `SimpleInterest`: `CompoundInterest` takes a whole, non-negative number of periods.

## Notes

- It is tempting to claim that compound interest is strictly greater than simple interest whenever the rate and the time are positive. That is not true of the code. With a single period, for example `n_compounds = 1` and `time = 1`, the two are equal (`CompoundOnePeriodIsSimple`). The strict inequality needs at least two periods (`CompoundExceedsSimple`). The code itself is consistent with both lemmas.
- The whole-number requirement in `CompoundAtLeastSimple` matters. When `n_compounds * time` lies strictly between 0 and 1, the code's closed form earns less than simple interest, even in exact arithmetic. For example, P = 10000, R = 5, T = 0.5 and N = 1 give compound interest 10000 · (√1.05 − 1) ≈ 246.95, below the simple interest of 250. So "compounding never yields less than simple interest" does not hold for every positive time as the code is written. The model, which has only whole numbers of periods, does not cover these inputs.
