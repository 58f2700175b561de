/**
  Simple and compound interest, as computed by `calculate_simple_interest` and
  `calculate_compound_interest` in prg7.py.

  The arithmetic is modelled over exact reals. The exponent of the compound
  formula, `n_compounds * time`, is a whole number of compounding periods
  (`periods: nat`), and the power is the recursive `Pow` below.
 */
module Interest {

  // ---------------------------------------------------------------------------
  // Whole-number powers over the reals
  // ---------------------------------------------------------------------------

  /** x raised to the k-th power; stands in for `math.pow` with a whole exponent. */
  function Pow(x: real, k: nat): (p: real)
    decreases k
  {
    if k == 0 then 1.0 else x * Pow(x, k - 1)
  }

  /** One raised to any power is one. */
  lemma {:induction false} PowOne(k: nat)
    ensures Pow(1.0, k) == 1.0
  {
    if k > 0 {
      PowOne(k - 1);
    }
  }

  /** Any power of a non-negative base is non-negative. */
  lemma {:induction false} PowNonNeg(x: real, k: nat)
    requires x >= 0.0
    ensures Pow(x, k) >= 0.0
  {
    if k > 0 {
      PowNonNeg(x, k - 1);
      MulNonNeg(x, Pow(x, k - 1));
    }
  }

  /** Any power of a base of at least one is at least one. */
  lemma {:induction false} PowAtLeastOne(x: real, k: nat)
    requires x >= 1.0
    ensures Pow(x, k) >= 1.0
  {
    if k > 0 {
      PowAtLeastOne(x, k - 1);
      MulAtLeastOne(x, Pow(x, k - 1));
    }
  }

  /** Exponents add: x^(a+b) = x^a * x^b. */
  lemma {:induction false} PowAdd(x: real, a: nat, b: nat)
    ensures Pow(x, a + b) == Pow(x, a) * Pow(x, b)
  {
    if a > 0 {
      PowAdd(x, a - 1, b);
      MulAssoc(x, Pow(x, a - 1), Pow(x, b));
    }
  }

  /** For a base of at least one, a larger exponent never gives a smaller power. */
  lemma {:induction false} PowMonotone(x: real, a: nat, b: nat)
    requires x >= 1.0
    requires a <= b
    ensures Pow(x, a) <= Pow(x, b)
    decreases b
  {
    if a < b {
      PowMonotone(x, a, b - 1);
      PowAtLeastOne(x, b - 1);
      MulAtLeastOne(Pow(x, b - 1), x);
    }
  }

  /** Bernoulli's inequality: (1 + x)^n >= 1 + n*x for every x >= -1. */
  lemma {:induction false} Bernoulli(x: real, n: nat)
    requires x >= -1.0
    ensures Pow(1.0 + x, n) >= 1.0 + (n as real) * x
  {
    if n > 0 {
      Bernoulli(x, n - 1);
      BernoulliStep(x, (n - 1) as real, Pow(1.0 + x, n - 1));
    }
  }

  /** Bernoulli's inequality is strict for a positive x and at least two factors. */
  lemma BernoulliStrict(x: real, n: nat)
    requires x > 0.0
    requires n >= 2
    ensures Pow(1.0 + x, n) > 1.0 + (n as real) * x
  {
    Bernoulli(x, n - 1);
    BernoulliStrictStep(x, (n - 1) as real, Pow(1.0 + x, n - 1));
  }

  // Facts of real arithmetic for the nonlinear steps above; none mentions Pow,
  // which keeps each proof obligation small.

  lemma BernoulliStep(x: real, m: real, p: real)
    requires x >= -1.0 && m >= 0.0
    requires p >= 1.0 + m * x
    ensures (1.0 + x) * p >= 1.0 + (m + 1.0) * x
  {
    MulNonNegLeft(1.0 + x, 1.0 + m * x, p);
    SquareNonNeg(x);
    MulNonNeg(m, x * x);
    assert (1.0 + x) * (1.0 + m * x) == 1.0 + (m + 1.0) * x + m * (x * x);
  }

  lemma BernoulliStrictStep(x: real, m: real, p: real)
    requires x > 0.0 && m >= 1.0
    requires p >= 1.0 + m * x
    ensures (1.0 + x) * p > 1.0 + (m + 1.0) * x
  {
    MulNonNegLeft(1.0 + x, 1.0 + m * x, p);
    MulPos(m, x);
    MulPos(m * x, x);
    assert (1.0 + x) * (1.0 + m * x) == 1.0 + (m + 1.0) * x + (m * x) * x;
  }

  lemma ScaleTwice(a: real, b: real, c: real, ab: real, bc: real)
    requires ab == a * b && bc == b * c
    ensures ab * c == a * bc
  {
  }

  lemma MulAssoc(a: real, b: real, c: real)
    ensures a * (b * c) == (a * b) * c
  {
  }

  lemma MulNonNeg(a: real, b: real)
    requires a >= 0.0 && b >= 0.0
    ensures a * b >= 0.0
  {
  }

  lemma MulPos(a: real, b: real)
    requires a > 0.0 && b > 0.0
    ensures a * b > 0.0
  {
  }

  lemma SquareNonNeg(x: real)
    ensures x * x >= 0.0
  {
    if x < 0.0 {
      MulNonNeg(-x, -x);
      assert (-x) * (-x) == x * x;
    } else {
      MulNonNeg(x, x);
    }
  }

  lemma MulNonNegLeft(c: real, a: real, b: real)
    requires c >= 0.0 && a <= b
    ensures c * a <= c * b
  {
    MulNonNeg(c, b - a);
    assert c * b - c * a == c * (b - a);
  }

  lemma MulPosLeft(c: real, a: real, b: real)
    requires c > 0.0 && a < b
    ensures c * a < c * b
  {
    MulPos(c, b - a);
    assert c * b - c * a == c * (b - a);
  }

  lemma MulAtLeastOne(a: real, b: real)
    requires a >= 0.0 && b >= 1.0
    ensures a <= a * b
  {
    MulNonNeg(a, b - 1.0);
    assert a * b == a + a * (b - 1.0);
  }

  // ---------------------------------------------------------------------------
  // Simple interest
  // ---------------------------------------------------------------------------

  /** `calculate_simple_interest(principal, rate, time)`: rate is a percentage. */
  function SimpleInterest(principal: real, rate: real, time: real): (si: real)
    ensures 100.0 * si == principal * rate * time
  {
    (principal * rate * time) / 100.0
  }

  /** Scaling any one of principal, rate or time by k scales the interest by k. */
  lemma SimpleInterestHomogeneous(k: real, principal: real, rate: real, time: real)
    ensures SimpleInterest(k * principal, rate, time) == k * SimpleInterest(principal, rate, time)
    ensures SimpleInterest(principal, k * rate, time) == k * SimpleInterest(principal, rate, time)
    ensures SimpleInterest(principal, rate, k * time) == k * SimpleInterest(principal, rate, time)
  {
    var si := SimpleInterest(principal, rate, time);
    assert 100.0 * (k * si) == k * (principal * rate * time);
    assert (k * principal) * rate * time == k * (principal * rate * time);
    assert principal * (k * rate) * time == k * (principal * rate * time);
    assert principal * rate * (k * time) == k * (principal * rate * time);
  }

  /** Interest on two principals together is the sum of the interests; likewise
      for two rates and for two time spans. */
  lemma SimpleInterestAdditive(p1: real, p2: real, rate: real, time: real, r2: real, t2: real)
    ensures SimpleInterest(p1 + p2, rate, time) == SimpleInterest(p1, rate, time) + SimpleInterest(p2, rate, time)
    ensures SimpleInterest(p1, rate + r2, time) == SimpleInterest(p1, rate, time) + SimpleInterest(p1, r2, time)
    ensures SimpleInterest(p1, rate, time + t2) == SimpleInterest(p1, rate, time) + SimpleInterest(p1, rate, t2)
  {
    assert (p1 + p2) * rate * time == p1 * rate * time + p2 * rate * time;
    assert p1 * (rate + r2) * time == p1 * rate * time + p1 * r2 * time;
    assert p1 * rate * (time + t2) == p1 * rate * time + p1 * rate * t2;
  }

  /** With a non-negative principal, rate and time the interest is non-negative,
      so the total `principal + interest` is at least the principal. */
  lemma SimpleInterestNonNeg(principal: real, rate: real, time: real)
    requires principal >= 0.0 && rate >= 0.0 && time >= 0.0
    ensures SimpleInterest(principal, rate, time) >= 0.0
    ensures principal + SimpleInterest(principal, rate, time) >= principal
  {
    MulNonNeg(principal, rate);
    MulNonNeg(principal * rate, time);
  }

  /** Simple interest is zero exactly when the principal, the rate or the time is zero. */
  lemma SimpleInterestZero(principal: real, rate: real, time: real)
    ensures SimpleInterest(principal, rate, time) == 0.0 <==> (principal == 0.0 || rate == 0.0 || time == 0.0)
  {
    if principal != 0.0 && rate != 0.0 && time != 0.0 {
      NonZeroProduct(principal, rate);
      NonZeroProduct(principal * rate, time);
    }
  }

  lemma NonZeroProduct(a: real, b: real)
    requires a != 0.0 && b != 0.0
    ensures a * b != 0.0
  {
    if a > 0.0 && b < 0.0 {
      MulPosLeft(a, b, 0.0);
    } else if a < 0.0 && b > 0.0 {
      MulPosLeft(b, a, 0.0);
    } else if a < 0.0 && b < 0.0 {
      MulPosLeft(-a, b, 0.0);
    } else {
      MulPosLeft(a, 0.0, b);
    }
  }

  /** The worked example: P = 10000, R = 5 %, T = 3 years gives 1500 of
      interest and a total of 11500. */
  lemma SimpleInterestExample()
    ensures SimpleInterest(10000.0, 5.0, 3.0) == 1500.0
    ensures 10000.0 + SimpleInterest(10000.0, 5.0, 3.0) == 11500.0
  {
  }

  // ---------------------------------------------------------------------------
  // Compound interest
  // ---------------------------------------------------------------------------

  /** The growth factor of one compounding period: 1 + (rate / 100) / n_compounds. */
  function PeriodFactor(rate: real, nCompounds: int): (f: real)
    requires nCompounds >= 1
    ensures rate >= 0.0 ==> f >= 1.0
    ensures (f - 1.0) * (nCompounds as real) * 100.0 == rate
  {
    var rateDecimal := rate / 100.0;
    1.0 + rateDecimal / (nCompounds as real)
  }

  /** `calculate_compound_interest(principal, rate, time, n_compounds)`, with
      `periods` standing for the whole number `n_compounds * time`. Returns the
      pair (compound interest, total amount). */
  function CompoundInterest(principal: real, rate: real, nCompounds: int, periods: nat): (r: (real, real))
    requires nCompounds >= 1
    ensures r.0 == r.1 - principal
    ensures principal >= 0.0 && rate >= 0.0 ==> r.1 >= principal && r.0 >= 0.0
  {
    var totalAmount := principal * Pow(PeriodFactor(rate, nCompounds), periods);
    assert principal >= 0.0 && rate >= 0.0 ==> totalAmount >= principal by {
      if principal >= 0.0 && rate >= 0.0 {
        PowAtLeastOne(PeriodFactor(rate, nCompounds), periods);
        MulAtLeastOne(principal, Pow(PeriodFactor(rate, nCompounds), periods));
      }
    }
    (totalAmount - principal, totalAmount)
  }

  /** For a non-negative principal and any rate down to -100 * n_compounds %
      (a non-negative period factor), the total is non-negative. */
  lemma CompoundTotalNonNeg(principal: real, rate: real, nCompounds: int, periods: nat)
    requires nCompounds >= 1
    requires principal >= 0.0
    requires rate >= -100.0 * (nCompounds as real)
    ensures CompoundInterest(principal, rate, nCompounds, periods).1 >= 0.0
  {
    var f := PeriodFactor(rate, nCompounds);
    assert f >= 0.0 by {
      assert (f - 1.0) * (nCompounds as real) * 100.0 == rate;
    }
    PowNonNeg(f, periods);
    MulNonNeg(principal, Pow(f, periods));
  }

  /** The balance after crediting `periodRate` of interest to it, then to the
      new balance, and so on, `periods` times. */
  function Accrue(balance: real, periodRate: real, periods: nat): (b: real)
    ensures balance >= 0.0 && periodRate >= 0.0 ==> b >= balance
    decreases periods
  {
    if periods == 0 then balance
    else
      var credited := balance + balance * periodRate;
      assert balance >= 0.0 && periodRate >= 0.0 ==> credited >= balance by {
        if balance >= 0.0 && periodRate >= 0.0 {
          MulNonNeg(balance, periodRate);
        }
      }
      Accrue(credited, periodRate, periods - 1)
  }

  /** The closed formula is the same as crediting interest on principal plus
      previously credited interest at every compounding interval. */
  lemma {:induction false} CompoundIsPeriodicCrediting(principal: real, rate: real, nCompounds: int, periods: nat)
    requires nCompounds >= 1
    ensures CompoundInterest(principal, rate, nCompounds, periods).1
         == Accrue(principal, rate / 100.0 / (nCompounds as real), periods)
  {
    var i := rate / 100.0 / (nCompounds as real);
    var f := PeriodFactor(rate, nCompounds);
    assert f == 1.0 + i;
    AccrueClosedForm(principal, i, periods);
  }

  lemma {:induction false} AccrueClosedForm(balance: real, periodRate: real, periods: nat)
    ensures Accrue(balance, periodRate, periods) == balance * Pow(1.0 + periodRate, periods)
    decreases periods
  {
    if periods > 0 {
      var credited := balance + balance * periodRate;
      AccrueClosedForm(credited, periodRate, periods - 1);
      assert credited == balance * (1.0 + periodRate);
      MulAssoc(balance, 1.0 + periodRate, Pow(1.0 + periodRate, periods - 1));
    }
  }

  /** With no compounding periods (time 0) the total is the principal and the
      interest is zero, whatever the rate. */
  lemma CompoundZeroPeriods(principal: real, rate: real, nCompounds: int)
    requires nCompounds >= 1
    ensures CompoundInterest(principal, rate, nCompounds, 0) == (0.0, principal)
  {
  }

  /** At a zero rate the total is the principal and the interest is zero, for
      any compounding frequency and any number of periods. */
  lemma CompoundZeroRate(principal: real, nCompounds: int, periods: nat)
    requires nCompounds >= 1
    ensures CompoundInterest(principal, 0.0, nCompounds, periods) == (0.0, principal)
  {
    assert PeriodFactor(0.0, nCompounds) == 1.0;
    PowOne(periods);
  }

  /** Compounding a principal for a periods and then reinvesting the total for b
      more periods gives the same total as compounding for a + b periods. */
  lemma CompoundReinvest(principal: real, rate: real, nCompounds: int, a: nat, b: nat)
    requires nCompounds >= 1
    ensures CompoundInterest(CompoundInterest(principal, rate, nCompounds, a).1, rate, nCompounds, b).1
         == CompoundInterest(principal, rate, nCompounds, a + b).1
  {
    var f := PeriodFactor(rate, nCompounds);
    var total := CompoundInterest(principal, rate, nCompounds, a).1;
    PowAdd(f, a, b);
    ScaleTwice(principal, Pow(f, a), Pow(f, b), total, Pow(f, a + b));
  }

  /** With a non-negative principal and rate, the total never shrinks as more
      periods are compounded. */
  lemma CompoundGrowsWithPeriods(principal: real, rate: real, nCompounds: int, a: nat, b: nat)
    requires nCompounds >= 1
    requires principal >= 0.0 && rate >= 0.0
    requires a <= b
    ensures CompoundInterest(principal, rate, nCompounds, a).1 <= CompoundInterest(principal, rate, nCompounds, b).1
  {
    var f := PeriodFactor(rate, nCompounds);
    PowMonotone(f, a, b);
    MulNonNegLeft(principal, Pow(f, a), Pow(f, b));
  }

  /** The linear part of compounding: the principal grown by one period's
      rate for every period is the principal plus simple interest. */
  lemma LinearGrowthIsSimple(principal: real, rate: real, time: real, nCompounds: int, periods: nat)
    requires nCompounds >= 1
    requires periods as real == (nCompounds as real) * time
    ensures principal * (1.0 + (periods as real) * (PeriodFactor(rate, nCompounds) - 1.0))
         == principal + SimpleInterest(principal, rate, time)
  {
    var n := nCompounds as real;
    var x := PeriodFactor(rate, nCompounds) - 1.0;
    assert x == rate / 100.0 / n;
    assert (periods as real) * x == time * rate / 100.0 by {
      assert (periods as real) * x == n * time * (rate / 100.0 / n);
    }
    assert principal * (1.0 + (periods as real) * x) == principal + principal * (time * rate / 100.0);
  }

  /** Compounding never yields less than simple interest: for a non-negative
      principal, a whole number of periods N*T and any rate down to -100*N %
      (which covers every non-negative rate), compound interest is at least
      simple interest for the same P, R and T. */
  lemma CompoundAtLeastSimple(principal: real, rate: real, time: real, nCompounds: int, periods: nat)
    requires nCompounds >= 1
    requires principal >= 0.0
    requires rate >= -100.0 * (nCompounds as real)
    requires periods as real == (nCompounds as real) * time
    ensures CompoundInterest(principal, rate, nCompounds, periods).0 >= SimpleInterest(principal, rate, time)
    ensures CompoundInterest(principal, rate, nCompounds, periods).1 >= principal + SimpleInterest(principal, rate, time)
  {
    var f := PeriodFactor(rate, nCompounds);
    var x := f - 1.0;
    assert x >= -1.0 by {
      assert x * (nCompounds as real) * 100.0 == rate;
    }
    Bernoulli(x, periods);
    assert 1.0 + x == f;
    MulNonNegLeft(principal, 1.0 + (periods as real) * x, Pow(f, periods));
    LinearGrowthIsSimple(principal, rate, time, nCompounds, periods);
  }

  /** With a positive principal and rate, two or more periods give strictly
      more than simple interest. */
  lemma CompoundExceedsSimple(principal: real, rate: real, time: real, nCompounds: int, periods: nat)
    requires nCompounds >= 1
    requires principal > 0.0 && rate > 0.0
    requires periods >= 2
    requires periods as real == (nCompounds as real) * time
    ensures CompoundInterest(principal, rate, nCompounds, periods).0 > SimpleInterest(principal, rate, time)
  {
    var f := PeriodFactor(rate, nCompounds);
    var x := f - 1.0;
    assert x > 0.0 by {
      assert x * (nCompounds as real) * 100.0 == rate;
    }
    BernoulliStrict(x, periods);
    assert 1.0 + x == f;
    MulPosLeft(principal, 1.0 + (periods as real) * x, Pow(f, periods));
    LinearGrowthIsSimple(principal, rate, time, nCompounds, periods);
  }

  /** A single compounding period (N*T = 1) earns exactly simple interest, so
      the comparison above is not strict in general. */
  lemma CompoundOnePeriodIsSimple(principal: real, rate: real, time: real, nCompounds: int)
    requires nCompounds >= 1
    requires (nCompounds as real) * time == 1.0
    ensures CompoundInterest(principal, rate, nCompounds, 1).0 == SimpleInterest(principal, rate, time)
  {
    var f := PeriodFactor(rate, nCompounds);
    assert Pow(f, 1) == f;
    LinearGrowthIsSimple(principal, rate, time, nCompounds, 1);
  }

  /** Annual compounding of 10000 at 5 % for 3 years: exactly 1576.25 of
      interest and a total of 11576.25. */
  lemma CompoundAnnualExample()
    ensures CompoundInterest(10000.0, 5.0, 1, 3) == (1576.25, 11576.25)
  {
    var f := PeriodFactor(5.0, 1);
    assert f == 1.05;
    assert Pow(f, 3) == 1.05 * (1.05 * (1.05 * 1.0));
  }

  /** Monthly compounding of 10000 at 5 % for 3 years (36 periods) ends above
      the simple-interest total of 11500, the comparison the example prints. */
  lemma CompoundMonthlyExampleBeatsSimple()
    ensures CompoundInterest(10000.0, 5.0, 12, 36).1 > 10000.0 + SimpleInterest(10000.0, 5.0, 3.0)
    ensures CompoundInterest(10000.0, 5.0, 12, 36).1 > 11500.0
  {
    CompoundExceedsSimple(10000.0, 5.0, 3.0, 12, 36);
    SimpleInterestExample();
  }
}
