/** The arithmetic of one digit, for both digit generators. */
module DragonSteps {
  import opened Arith
  import opened Decimals
  import opened DragonSpec

  // ---- The state the set-up leaves

  /** num / den * 10^x is v; lower and upper are the distances to the ends of v's rounding interval. */
  predicate SetUp(v: Fp, closer: bool, x: int, num: nat, den: nat, lower: nat, upper: nat)
  {
    && den > 0 && lower > 0
    && num == (Fine(closer) * v.f) * lower
    && upper == UpperUnits(closer) * lower
    && Represents(Fine(closer) * lower, den, 1, v.e, x)
  }

  lemma SetUpRepresents(v: Fp, closer: bool, x: int, num: nat, den: nat, lower: nat, upper: nat)
    requires SetUp(v, closer, x, num, den, lower, upper)
    ensures Represents(num, den, v.f, v.e, x)
  {
    var sd, sn := ScaledDen(v.e, x), ScaledNum(1, v.e, x);
    var unit := Fine(closer) * lower;
    assert num == v.f * unit by {
      MulAssoc(v.f, Fine(closer), lower);
    }
    MulAssoc(v.f, unit, sd);
    MulAssoc(v.f, sn, den);
    assert ScaledNum(v.f, v.e, x) == v.f * sn;
  }

  /** Multiplying everything but the denominator by ten lowers the decimal exponent by one. */
  lemma SetUpTimesTen(v: Fp, closer: bool, x: int, num: nat, den: nat, lower: nat, upper: nat)
    requires SetUp(v, closer, x, num, den, lower, upper)
    ensures SetUp(v, closer, x - 1, num * 10, den, lower * 10, upper * 10)
  {
    assert Pow(10, 1) == 10;
    RepresentsShift(Fine(closer) * lower, den, 1, v.e, x, 1);
    MulAssoc(Fine(closer) * v.f, lower, 10);
  }

  /** The fine unit after n digits, as a fraction of the denominator and of the scaled value. */
  lemma UnitRatio(v: Fp, closer: bool, x: int, num: nat, den: nat, lower: nat, upper: nat, n: nat)
    requires SetUp(v, closer, x, num, den, lower, upper)
    ensures (lower * Pow(10, n)) * FineDen(closer, v.e, x - n) == ScaledNum(1, v.e, x - n) * den
  {
    var t, d, c := Pow(10, n), ScaledDen(v.e, x - n), Fine(closer);
    RepresentsShift(c * lower, den, 1, v.e, x, n);
    assert ((c * lower) * t) * d == ScaledNum(1, v.e, x - n) * den;
    UnitAlgebra(c, lower, t, d);
  }

  lemma UnitAlgebra(c: nat, lower: nat, t: nat, d: nat)
    ensures ((c * lower) * t) * d == (lower * t) * (c * d)
  {
    MulAssoc(c, lower, t);
    MulAssoc(c, lower * t, d);
    MulAssoc(lower * t, c, d);
    MulAssoc(lower * t, d, c);
    MulAssoc(c, d, lower * t);
  }

  /** Comparing ends * lower with a multiple of the denominator is comparing the scaled values. */
  lemma EndCompare(v: Fp, closer: bool, x: int, num: nat, den: nat, lower: nat, upper: nat, n: nat, ends: nat, m: nat)
    requires SetUp(v, closer, x, num, den, lower, upper)
    ensures var a, b := ScaledNum(ends, v.e, x - n), m * FineDen(closer, v.e, x - n);
      && (ends * (lower * Pow(10, n)) <= m * den <==> a <= b)
      && (ends * (lower * Pow(10, n)) >= m * den <==> a >= b)
  {
    UnitRatio(v, closer, x, num, den, lower, upper, n);
    SameSideOf(lower * Pow(10, n), den, ScaledNum(1, v.e, x - n), FineDen(closer, v.e, x - n), ends, m);
  }

  /** The interval's ends in units of lower. */
  lemma EndsOf(v: Fp, closer: bool, x: int, num: nat, den: nat, lower: nat, upper: nat, t: nat)
    requires SetUp(v, closer, x, num, den, lower, upper) && v.f > 0
    ensures LowEnd(v.f, closer) * (lower * t) == num * t - lower * t
    ensures HighEnd(v.f, closer) * (lower * t) == num * t + upper * t
  {
    var c := Fine(closer) * v.f;
    MulAssoc(c, lower, t);
    DistributeMinus(lower * t, c, 1);
    Distribute(lower * t, c, UpperUnits(closer));
    MulAssoc(UpperUnits(closer), lower, t);
  }

  /** The sum comparison of the fixup step decides whether the upper end fits. */
  lemma FixupDecides(v: Fp, closer: bool, x: int, num: nat, den: nat, lower: nat, upper: nat, limit: nat)
    requires SetUp(v, closer, x, num, den, lower, upper) && v.f > 0
    ensures UpperEndFits(v, closer, x, limit)
       <==> num + upper < limit * den || (num + upper == limit * den && v.f % 2 == 1)
  {
    assert Pow(10, 0) == 1;
    EndsOf(v, closer, x, num, den, lower, upper, 1);
    EndCompare(v, closer, x, num, den, lower, upper, 0, HighEnd(v.f, closer), limit);
  }

  // ---- Digits

  /** After n digits denoting prefix, the numerator is ten times the remainder. */
  predicate Generated(num0: nat, den: nat, num: nat, prefix: nat, n: nat)
  {
    num0 * Pow(10, n) == 10 * (prefix * den) + num
  }

  /** digit and rest are num's quotient and remainder. */
  predicate DividesInto(num: nat, den: nat, digit: nat, rest: nat)
  {
    num == digit * den + rest && rest < den
  }

  lemma DigitStep(num0: nat, den: nat, num: nat, prefix: nat, n: nat, digit: nat, rest: nat)
    requires Generated(num0, den, num, prefix, n)
    requires DividesInto(num, den, digit, rest)
    ensures num0 * Pow(10, n) == (10 * prefix + digit) * den + rest
    ensures Generated(num0, den, 10 * rest, 10 * prefix + digit, n + 1)
  {
    Distribute(den, 10 * prefix, digit);
    MulAssoc(10, prefix, den);
    MulAssoc(num0, 10, Pow(10, n));
    MulAssoc(10, num0, Pow(10, n));
  }

  /** A quotient below ten denominators is a digit. */
  lemma QuotientIsDigit(num: nat, den: nat, digit: nat, rest: nat)
    requires DividesInto(num, den, digit, rest) && num < 10 * den
    ensures digit <= 9
  {
    MulCancelLess(digit, 10, den);
  }

  /** Comparing twice the remainder with the denominator, a tie resolved by the last digit. */
  lemma RoundLast(total: nat, den: nat, prefix: nat, digit: nat, rest: nat)
    requires total == (10 * prefix + digit) * den + rest && rest < den
    ensures var up := 2 * rest > den || (2 * rest == den && digit % 2 != 0);
      RoundsHalfEven(total, den, 10 * prefix + digit + if up then 1 else 0)
  {
    Distribute(den, 10 * prefix + digit, 1);
  }

  // ---- The shortest generator

  /**
    What decides where comparisons are not exact: how the exponents of a remainder and of lower
    compare, whether a zero remainder is overlooked after the first digit, and whether v.f is even.
   */
  datatype Judging = Judging(order: int, hidden: bool, even: bool)

  /** Whether equality counts as low: the order of the two exponents decides, then the evenness. */
  predicate TieSeen(order: int, even: bool)
  {
    order > 0 || (order == 0 && even)
  }

  /** What the low test answers after n digits and one more. */
  predicate LowSeen(rest: nat, lower: nat, n: nat, j: Judging)
  {
    if rest == lower then TieSeen(j.order, j.even) else rest < lower && !(rest == 0 && n == 0 && j.hidden)
  }

  /** What the high test answers. */
  predicate HighSeen(rest: nat, den: nat, upper: nat, j: Judging)
  {
    rest + upper > den || (rest + upper == den && j.even)
  }

  /** Ten times the remainder of a digit that was not low. */
  predicate Passed(num: nat, lower: nat, n: nat, j: Judging)
  {
    if num == lower then !TieSeen(j.order, j.even) else lower < num || (num == 0 && n == 1 && j.hidden)
  }

  /** The upper end is still below the next power of ten. */
  predicate BelowNext(num: nat, den: nat, upper: nat, j: Judging)
  {
    num + upper <= 10 * den && (num + upper == 10 * den ==> !j.even)
  }

  /** The state at the top of the loop, after n digits denoting prefix. */
  predicate Emitting(num0: nat, lower0: nat, upper0: nat, den: nat, j: Judging,
                     prefix: nat, n: nat, num: nat, lower: nat, upper: nat)
  {
    && Generated(num0, den, num, prefix, n)
    && lower == lower0 * Pow(10, n) && upper == upper0 * Pow(10, n)
    && BelowNext(num, den, upper, j)
    && (n > 0 ==> lower < 10 * den && Passed(num, lower, n, j))
  }

  /** A digit nine is never rounded up, and no digit exceeds nine. */
  lemma NineIsNotHigh(num: nat, den: nat, upper: nat, j: Judging, digit: nat, rest: nat)
    requires upper > 0 && BelowNext(num, den, upper, j)
    requires DividesInto(num, den, digit, rest)
    ensures digit <= 9
    ensures digit == 9 ==> !HighSeen(rest, den, upper, j)
  {
    QuotientIsDigit(num, den, digit, rest);
  }

  /** Neither end reached: another digit. */
  lemma ContinueStep(num0: nat, lower0: nat, upper0: nat, den: nat, j: Judging,
                     prefix: nat, n: nat, num: nat, lower: nat, upper: nat, digit: nat, rest: nat)
    requires Emitting(num0, lower0, upper0, den, j, prefix, n, num, lower, upper)
    requires DividesInto(num, den, digit, rest) && lower > 0
    requires !LowSeen(rest, lower, n, j) && !HighSeen(rest, den, upper, j)
    requires j.hidden ==> lower0 < den
    ensures lower < den
    ensures Emitting(num0, lower0, upper0, den, j, 10 * prefix + digit, n + 1, rest * 10, lower * 10, upper * 10)
  {
    DigitStep(num0, den, num, prefix, n, digit, rest);
    MulAssoc(lower0, Pow(10, n), 10);
    MulAssoc(upper0, Pow(10, n), 10);
    assert Pow(10, 0) == 1;
  }

  /**
    How the run ends: after n digits denoting prefix, the next ones denote m with remainder rest,
    and the answers low and high leave m or one more.
   */
  datatype End = End(prefix: nat, n: nat, num: nat, m: nat, rest: nat, low: bool, high: bool)

  /** What the shortest generator leaves, in units of the denominator. */
  predicate Settled(num0: nat, lower0: nat, upper0: nat, den: nat, j: Judging, end: End, result: nat)
  {
    var n, num, rest := end.n, end.num, end.rest;
    var total, lower, upper := num0 * Pow(10, n), lower0 * Pow(10, n), upper0 * Pow(10, n);
    && total == end.m * den + rest && rest < den
    && end.low == LowSeen(rest, lower, n, j) && end.high == HighSeen(rest, den, upper, j) && (end.low || end.high)
    && result == end.m + (if RoundsUp(end.m, den, rest, end.low, end.high) then 1 else 0)
    && total == 10 * (end.prefix * den) + num && BelowNext(num, den, upper, j)
    && (n > 0 ==> lower < 10 * den && Passed(num, lower, n, j))
  }

  /** Up when only that is inside, or when both are and it is nearer; a tie goes to the even one. */
  predicate RoundsUp(m: nat, den: nat, rest: nat, low: bool, high: bool)
  {
    high && (!low || 2 * rest > den || (2 * rest == den && m % 2 != 0))
  }

  /** The digit to leave when an end is reached. */
  lemma StopStep(num0: nat, lower0: nat, upper0: nat, den: nat, j: Judging,
                 prefix: nat, n: nat, num: nat, lower: nat, upper: nat, digit: nat, rest: nat, low: bool, high: bool)
    requires Emitting(num0, lower0, upper0, den, j, prefix, n, num, lower, upper)
    requires DividesInto(num, den, digit, rest)
    requires low == LowSeen(rest, lower, n, j) && high == HighSeen(rest, den, upper, j) && (low || high)
    ensures var m := 10 * prefix + digit;
      Settled(num0, lower0, upper0, den, j, End(prefix, n, num, m, rest, low, high),
              m + if RoundsUp(digit, den, rest, low, high) then 1 else 0)
  {
    hide LowSeen, HighSeen, BelowNext, Passed, RoundsUp, Pow;
    DigitStep(num0, den, num, prefix, n, digit, rest);
    LastDigitRounds(prefix, digit, den, rest, low, high);
  }

  /** Rounding goes by the last digit only. */
  lemma LastDigitRounds(prefix: nat, digit: nat, den: nat, rest: nat, low: bool, high: bool)
    ensures RoundsUp(10 * prefix + digit, den, rest, low, high) == RoundsUp(digit, den, rest, low, high)
  {
    assert (10 * prefix + digit) % 2 == digit % 2;
  }

  /** The misread power: its first digit comes out as 0 with everything left, and is rounded up to 1. */
  lemma MisreadSettles(num0: nat, lower0: nat, upper0: nat, den: nat, j: Judging)
    requires num0 == den && 0 < lower0 && upper0 < den && !j.hidden
    ensures Settled(num0, lower0, upper0, den, j, End(0, 0, num0, 1, 0, true, false), 1)
  {
    assert Pow(10, 0) == 1;
  }

  /** What rounding the last digit means for the number itself. */
  lemma RoundedMeans(v: Fp, closer: bool, x: int, num0: nat, den: nat, lower0: nat, upper0: nat, n: nat, result: nat)
    requires SetUp(v, closer, x, num0, den, lower0, upper0)
    requires RoundsHalfEven(num0 * Pow(10, n), den, result)
    ensures RoundsHalfEven(ScaledNum(v.f, v.e, x - n), ScaledDen(v.e, x - n), result)
  {
    SetUpRepresents(v, closer, x, num0, den, lower0, upper0);
    RepresentsShift(num0, den, v.f, v.e, x, n);
    RoundsHalfEvenScale(num0 * Pow(10, n), den, ScaledNum(v.f, v.e, x - n), ScaledDen(v.e, x - n), result);
  }

  // ---- What the inputs promise

  /** A value of at least one has a decimal exponent of at least zero. */
  lemma LargeNeedsExponent(v: Fp, flags: Flags, numDigits: int, x: int)
    requires v.f > 0 && ExponentFits(v, flags, numDigits, x)
    ensures v.e >= 0 ==> x >= 0
  {
    if v.e >= 0 && x < 0 {
      assert Pow(2, 0) == 1 && Pow(10, 0) == 1;
      assert Pow(10, -x) == 10 * Pow(10, -x - 1);
      PowPositive(10, -x - 1);
      PowPositive(2, v.e);
      var t := Pow(2, v.e) * Pow(10, -x);
      MulMonotonic(1, Pow(2, v.e), Pow(10, -x));
      assert t >= 10;
      MulMonotonic(1, v.f, t);
      var h := HighEnd(v.f, flags.predecessorCloser);
      MulMonotonic(Fine(flags.predecessorCloser) + 1, h, t);
      MulMonotonic(10, t, Fine(flags.predecessorCloser) + 1);
    }
  }

  /** The same promise about the numbers the set-up leaves. */
  lemma FitsMeans(v: Fp, flags: Flags, numDigits: int, x: int, num: nat, den: nat, lower: nat, upper: nat)
    requires v.f > 0 && ExponentFits(v, flags, numDigits, x)
    requires SetUp(v, flags.predecessorCloser, x, num, den, lower, upper)
    ensures numDigits < 0 ==> num + upper < 10 * den || (num + upper == 10 * den && v.f % 2 == 1)
    ensures num < 10 * den && upper > 0 && den > 0
  {
    if numDigits < 0 {
      FixupDecides(v, flags.predecessorCloser, x, num, den, lower, upper, 10);
    } else {
      SetUpRepresents(v, flags.predecessorCloser, x, num, den, lower, upper);
      SameSideOf(num, den, ScaledNum(v.f, v.e, x), ScaledDen(v.e, x), 1, 10);
    }
  }

  /** Comparing twice the numerator with ten denominators is comparing the value with half of 10^(x + 1). */
  lemma HalfMeans(v: Fp, closer: bool, x: int, num: nat, den: nat, lower: nat, upper: nat)
    requires SetUp(v, closer, x, num, den, lower, upper)
    ensures OverHalf(v, x + 1) <==> num + num > den * 10
  {
    SetUpRepresents(v, closer, x, num, den, lower, upper);
    ScaleShift(v.f, v.e, x + 1, 1);
    assert Pow(10, 1) == 10;
    var sn, sd, sn', sd' := ScaledNum(v.f, v.e, x), ScaledDen(v.e, x),
      ScaledNum(v.f, v.e, x + 1), ScaledDen(v.e, x + 1);
    HalfAlgebra(num, den, sn, sd, sn', sd');
    SameSideOf(num, den, sn' * 10, sd', 2, 10);
  }

  lemma HalfAlgebra(num: nat, den: nat, sn: nat, sd: nat, sn': nat, sd': nat)
    requires sd > 0 && num * sd == sn * den && sn * sd' == (sn' * 10) * sd
    ensures num * sd' == (sn' * 10) * den
  {
    var k := sn' * 10;
    calc {
      (num * sd') * sd;
    ==  { MulAssoc(num, sd', sd); MulAssoc(num, sd, sd'); }
      (sn * den) * sd';
    ==  { MulAssoc(sn, den, sd'); MulAssoc(sn, sd', den); }
      (k * sd) * den;
    ==  { MulAssoc(k, sd, den); MulAssoc(k, den, sd); }
      (k * den) * sd;
    }
    MulCancel(num * sd', k * den, sd);
  }
}
