/** What the digits of the shortest mode mean for the number, and exactly when they are right. */
module DragonShortest {
  import opened Arith
  import opened Bigits
  import opened Decimals
  import opened DragonSpec
  import opened DragonSteps
  import opened Residues

  // ---- In units of the denominator

  /** v's interval over den: the value, and the distances down and up to the ends. */
  datatype Span = Span(total: nat, lower: nat, upper: nat, den: nat)

  /** The same interval n decimal places further on. */
  function AtScale(s: Span, n: nat): Span
  {
    var t := Pow(10, n);
    Span(s.total * t, s.lower * t, s.upper * t, s.den)
  }

  /** m * den lies in the interval, the ends included for even values only. */
  predicate Within(s: Span, even: bool, m: nat)
  {
    if even then s.total - s.lower <= m * s.den <= s.total + s.upper
    else s.total - s.lower < m * s.den < s.total + s.upper
  }

  /** The lower end is m * den, and nothing above it lies within. */
  predicate OnlyLow(s: Span, even: bool, m: nat)
  {
    && s.total - s.lower == m * s.den
    && (s.total + s.upper < (m + 1) * s.den || (s.total + s.upper == (m + 1) * s.den && !even))
  }

  predicate IsWhole(s: Span, m: nat)
  {
    s.total == m * s.den
  }

  predicate Misjudged(j: Judging)
  {
    if j.even then j.order < 0 else j.order > 0
  }

  /** What makes the generator go astray, in these units. */
  ghost predicate Spoiled(s: Span, j: Judging)
  {
    || (Misjudged(j) && exists y, m: nat :: OnlyLow(AtScale(s, y), j.even, m))
    || (j.hidden && exists m: nat :: IsWhole(s, m))
  }

  ghost predicate NoneWithin(s: Span, even: bool)
  {
    forall k: nat :: !Within(s, even, k)
  }

  /** result, found after n + 1 digits, is within, and no multiple of the next power of ten is. */
  ghost predicate IsShortest(s: Span, even: bool, n: nat, result: nat)
  {
    && Within(AtScale(s, n), even, result)
    && (n > 0 ==> NoneWithin(AtScale(s, n - 1), even))
  }

  /** The run's start, as a span that has a width, and only exact ties that are harmless. */
  predicate Sound(s: Span, j: Judging, end: End)
  {
    && s.lower > 0 && s.upper > 0
    && (j.hidden ==> s.upper < s.den)
    && (!j.even && end.rest == AtScale(s, end.n).lower ==> s.upper == s.lower)
  }

  /** The digits are the shortest that identify the value exactly when nothing spoiled the run. */
  lemma ShortestIff(s: Span, j: Judging, end: End, result: nat)
    requires Settled(s.total, s.lower, s.upper, s.den, j, end, result) && Sound(s, j, end)
    ensures IsShortest(s, j.even, end.n, result) <==> !Spoiled(s, j)
  {
    hide Settled, AtScale, Within, OnlyLow, Misjudged, IsWhole, Sound;
    if Spoiled(s, j) {
      if j.hidden && exists m: nat :: IsWhole(s, m) {
        var m: nat :| IsWhole(s, m);
        WholeSpoils(s, j, end, result, m);
      } else {
        var y, m: nat :| OnlyLow(AtScale(s, y), j.even, m);
        LowEndSpoils(s, j, end, result, y, m);
      }
    } else {
      ResultWithin(s, j, end, result);
      if end.n > 0 {
        var at := AtScale(s, end.n - 1);
        forall k: nat
          ensures !Within(at, j.even, k)
        {
          if Within(at, j.even, k) {
            NoShorterText(s, j, end, result, k);
            assert false;
          }
        }
      }
    }
  }

  // ---- Unspoiled runs

  /** The number found is in the closed interval, and within it unless it is a lower end that was misjudged. */
  lemma ResultWithin(s: Span, j: Judging, end: End, result: nat)
    requires Settled(s.total, s.lower, s.upper, s.den, j, end, result) && Sound(s, j, end)
    ensures var at := AtScale(s, end.n);
      && at.total - at.lower <= result * at.den <= at.total + at.upper
      && (Within(at, j.even, result) || (Misjudged(j) && OnlyLow(at, j.even, end.m)))
  {
    ScaledPositive(s, end.n);
    Distribute(s.den, end.m, 1);
  }

  /** No text a digit shorter is within, unless an equality was misjudged or a zero overlooked before. */
  lemma NoShorterText(s: Span, j: Judging, end: End, result: nat, k: nat)
    requires Settled(s.total, s.lower, s.upper, s.den, j, end, result) && end.n > 0
    requires Within(AtScale(s, end.n - 1), j.even, k)
    ensures (Misjudged(j) && OnlyLow(AtScale(s, end.n - 1), j.even, end.prefix))
         || (j.hidden && IsWhole(s, end.prefix))
  {
    hide Settled, Passed, BelowNext, AtScale, Within, OnlyLow, Misjudged;
    LastButOne(s, j, end, result);
    InSteps(k, end.prefix, s.den);
    var at := AtScale(s, end.n - 1);
    WithinMeans(at, j.even, k);
    ShorterIsLowEnd(at.total, at.lower, at.upper, s.den, j, end.n, end.num, end.prefix * s.den, k * s.den);
    OnlyLowMeans(at, j.even, end.prefix);
    ScaleZero(s);
  }

  /** The state a digit before the last, in that digit's units. */
  lemma LastButOne(s: Span, j: Judging, end: End, result: nat)
    requires Settled(s.total, s.lower, s.upper, s.den, j, end, result) && end.n > 0
    ensures var at := AtScale(s, end.n - 1);
      && at.den == s.den
      && 10 * at.total == 10 * (end.prefix * s.den) + end.num
      && BelowNext(end.num, s.den, 10 * at.upper, j) && Passed(end.num, 10 * at.lower, end.n, j)
      && at.lower < s.den
  {
    hide Passed, BelowNext, LowSeen, HighSeen, RoundsUp;
    var t := Pow(10, end.n - 1);
    assert Pow(10, end.n) == 10 * t;
    TenTimes(s.total, t);
    TenTimes(s.lower, t);
    TenTimes(s.upper, t);
  }

  lemma TenTimes(x: nat, t: nat)
    ensures x * (10 * t) == 10 * (x * t)
  {}

  lemma ScaleZero(s: Span)
    ensures AtScale(s, 0) == s
  {
    assert Pow(10, 0) == 1;
  }

  lemma WithinMeans(s: Span, even: bool, m: nat)
    ensures Within(s, even, m) <==>
      if even then s.total - s.lower <= m * s.den <= s.total + s.upper
      else s.total - s.lower < m * s.den < s.total + s.upper
  {}

  lemma OnlyLowMeans(s: Span, even: bool, m: nat)
    ensures OnlyLow(s, even, m) <==>
      s.total - s.lower == m * s.den
      && (s.total + s.upper < m * s.den + s.den || (s.total + s.upper == m * s.den + s.den && !even))
  {
    Distribute(s.den, m, 1);
  }

  /** Multiples of den are den apart. */
  lemma InSteps(k: nat, m: nat, den: nat)
    ensures k < m ==> k * den + den <= m * den
    ensures m < k ==> m * den + den <= k * den
    ensures k == m ==> k * den == m * den
  {
    if k < m {
      MulMonotonic(k + 1, m, den);
      Distribute(den, k, 1);
    } else if m < k {
      MulMonotonic(m + 1, k, den);
      Distribute(den, m, 1);
    }
  }

  lemma ShorterIsLowEnd(total: nat, lower: nat, upper: nat, den: nat, j: Judging, n: nat, num: nat, p: nat, q: nat)
    requires 10 * total == 10 * p + num && BelowNext(num, den, 10 * upper, j) && Passed(num, 10 * lower, n, j)
    requires q == p || q + den <= p || p + den <= q
    requires if j.even then total - lower <= q <= total + upper else total - lower < q < total + upper
    requires lower < den
    ensures (Misjudged(j) && total - lower == p
             && (total + upper < p + den || (total + upper == p + den && !j.even)))
         || (num == 0 && n == 1 && j.hidden && total == p)
  {}

  // ---- Spoiled runs

  /** A value that is whole at the first digit goes unnoticed there, and is a shorter text later. */
  lemma WholeSpoils(s: Span, j: Judging, end: End, result: nat, m: nat)
    requires Settled(s.total, s.lower, s.upper, s.den, j, end, result) && Sound(s, j, end)
    requires j.hidden && IsWhole(s, m)
    ensures !IsShortest(s, j.even, end.n, result)
  {
    hide Settled, AtScale, Within, IsWhole;
    WholeIsOverlooked(s, j, end, result, m);
    WholeIsWithin(s, end.n - 1, j.even, m);
  }

  lemma WholeIsWithin(s: Span, k: nat, even: bool, m: nat)
    requires IsWhole(s, m) && s.lower > 0 && s.upper > 0
    ensures Within(AtScale(s, k), even, m * Pow(10, k))
  {
    ScaledPositive(s, k);
    MulAssoc(m, Pow(10, k), s.den);
    MulAssoc(m, s.den, Pow(10, k));
  }

  lemma WholeIsOverlooked(s: Span, j: Judging, end: End, result: nat, m: nat)
    requires Settled(s.total, s.lower, s.upper, s.den, j, end, result) && Sound(s, j, end)
    requires j.hidden && IsWhole(s, m)
    ensures end.n > 0
  {
    hide IsShortest;
    if end.n == 0 {
      assert Pow(10, 0) == 1;
      InSteps(m, end.m, s.den);
    }
  }

  /** A misjudged lower end that is all there is: an even value has a shorter text, an odd one no right text. */
  lemma LowEndSpoils(s: Span, j: Judging, end: End, result: nat, y: nat, m: nat)
    requires Settled(s.total, s.lower, s.upper, s.den, j, end, result) && Sound(s, j, end)
    requires Misjudged(j) && OnlyLow(AtScale(s, y), j.even, m)
    ensures !IsShortest(s, j.even, end.n, result)
  {
    hide Settled, AtScale, Within, OnlyLow, Misjudged, IsWhole, Sound;
    if end.n <= y {
      if Within(AtScale(s, end.n), j.even, result) {
        ScaleTwice(s, end.n, y);
        OnlyLowBelow(AtScale(s, end.n), y - end.n, j.even, m, result);
        LowEndNotFound(s, j, end, result);
        assert false;
      }
    } else {
      var k := end.n - 1 - y;
      ScaleTwice(s, y, end.n - 1);
      LowEndAbove(AtScale(s, y), k, j.even, m);
      if !j.even {
        LowEndNotPassed(s, j, end, result, m * Pow(10, k));
        assert false;
      }
    }
  }

  lemma ScaleTwice(s: Span, y: nat, n: nat)
    requires y <= n
    ensures AtScale(AtScale(s, y), n - y) == AtScale(s, n)
  {
    PowAdd(10, y, n - y);
    MulAssoc(s.total, Pow(10, y), Pow(10, n - y));
    MulAssoc(s.lower, Pow(10, y), Pow(10, n - y));
    MulAssoc(s.upper, Pow(10, y), Pow(10, n - y));
  }

  /** Where only the lower end is left k places on, a text found here can be no other, and only for an even value. */
  lemma OnlyLowBelow(s: Span, k: nat, even: bool, m: nat, result: nat)
    requires Within(s, even, result) && OnlyLow(AtScale(s, k), even, m)
    ensures even && s.total - s.lower == result * s.den
  {
    var t := Pow(10, k);
    PowPositive(10, k);
    DistributeMinus(t, s.total, s.lower);
    Distribute(t, s.total, s.upper);
    Distribute(s.den, m, 1);
    OnlyLowBelowAt(s.total - s.lower, result * s.den, s.total + s.upper, t, even, m * s.den, s.den, result, m);
  }

  lemma OnlyLowBelowAt(low: int, found: nat, high: nat, t: nat, even: bool, end: nat, den: nat, result: nat, m: nat)
    requires t > 0 && found == result * den && end == m * den
    requires if even then low <= found <= high else low < found < high
    requires low * t == end
    requires high * t < end + den || (high * t == end + den && !even)
    ensures even && low == found
  {
    assert found * t == (result * t) * den by {
      MulAssoc(result, den, t);
      MulAssoc(result, t, den);
    }
    InSteps(result * t, m, den);
    if low < found {
      MulStrictlyMonotonic(low, found, t);
    }
    MulMonotonic(found, high, t);
    if found < high {
      MulStrictlyMonotonic(found, high, t);
    }
  }

  /** A misjudged lower end of an even value is never the result. */
  lemma LowEndNotFound(s: Span, j: Judging, end: End, result: nat)
    requires Settled(s.total, s.lower, s.upper, s.den, j, end, result) && Sound(s, j, end)
    requires j.even && Misjudged(j)
    ensures var at := AtScale(s, end.n); at.total - at.lower != result * at.den
  {
    ScaledPositive(s, end.n);
    Distribute(s.den, end.m, 1);
  }

  /** The lower end stays a whole number of units further on; for an even value it is within. */
  lemma LowEndAbove(s: Span, k: nat, even: bool, m: nat)
    requires OnlyLow(s, even, m)
    ensures var at := AtScale(s, k);
      && at.total - at.lower == (m * Pow(10, k)) * at.den
      && (even ==> Within(at, even, m * Pow(10, k)))
  {
    hide Pow;
    EndTimes(s.total, s.lower, m, s.den, Pow(10, k));
  }

  lemma EndTimes(total: nat, lower: nat, m: nat, den: nat, t: nat)
    requires total - lower == m * den
    ensures total * t - lower * t == (m * t) * den
  {
    DistributeMinus(t, total, lower);
    MulAssoc(m, den, t);
    MulAssoc(m, t, den);
  }

  /** An odd value's lower end is taken when it is met, so no digit follows it. */
  lemma LowEndNotPassed(s: Span, j: Judging, end: End, result: nat, m: nat)
    requires Settled(s.total, s.lower, s.upper, s.den, j, end, result) && Sound(s, j, end) && end.n > 0
    requires !j.even && Misjudged(j)
    ensures var at := AtScale(s, end.n - 1); at.total - at.lower != m * at.den
  {
    hide Settled, AtScale, Within, OnlyLow;
    LastButOne(s, j, end, result);
    InSteps(m, end.prefix, s.den);
    ScaledPositive(s, end.n - 1);
  }

  lemma ScaledPositive(s: Span, n: nat)
    requires s.lower > 0 && s.upper > 0
    ensures AtScale(s, n).lower > 0 && AtScale(s, n).upper > 0
  {
    PowPositive(10, n);
    MulPositive(s.lower, Pow(10, n));
    MulPositive(s.upper, Pow(10, n));
  }

  // ---- The nearest text

  function Off(s: Span, m: nat): nat
  {
    if m * s.den <= s.total then s.total - m * s.den else m * s.den - s.total
  }

  /** Nothing within is nearer than m * den. */
  ghost predicate NearestWithin(s: Span, even: bool, m: nat)
  {
    forall k: nat :: Within(s, even, k) ==> Off(s, m) <= Off(s, k)
  }

  predicate IsLowEnd(s: Span, m: nat)
  {
    s.total - s.lower == m * s.den
  }

  /** An even value's lower end is a multiple of den, nearer than the next one, and equality is misjudged. */
  ghost predicate LowEndMissed(s: Span, j: Judging)
  {
    j.even && j.order < 0 && 2 * s.lower < s.den && exists m: nat :: IsLowEnd(s, m)
  }

  lemma NearestIff(s: Span, j: Judging, end: End, result: nat)
    requires Settled(s.total, s.lower, s.upper, s.den, j, end, result) && Sound(s, j, end)
    ensures var at := AtScale(s, end.n);
      && (NearestWithin(at, j.even, result) <==> !LowEndMissed(at, j))
      && (s.upper == s.lower ==> Nearest(at.total, at.den, result))
  {
    var at := AtScale(s, end.n);
    ScaledPositive(s, end.n);
    LastSettles(s, j, end, result);
    hide Settled, AtScale, Sound;
    if LowEndMissed(at, j) {
      var m: nat :| IsLowEnd(at, m);
      InSteps(m, end.m, at.den);
      Distribute(at.den, end.m, 1);
      assert Within(at, j.even, m);
    } else {
      forall k: nat | Within(at, j.even, k)
        ensures Off(at, result) <= Off(at, k)
      {
        NearerThan(s, j, end, result, k);
      }
    }
    if s.upper == s.lower {
      Distribute(at.den, end.m, 1);
    }
  }

  lemma NearerThan(s: Span, j: Judging, end: End, result: nat, k: nat)
    requires Settled(s.total, s.lower, s.upper, s.den, j, end, result) && Sound(s, j, end)
    requires !LowEndMissed(AtScale(s, end.n), j) && Within(AtScale(s, end.n), j.even, k)
    ensures Off(AtScale(s, end.n), result) <= Off(AtScale(s, end.n), k)
  {
    var at := AtScale(s, end.n);
    LastSettles(s, j, end, result);
    hide Settled, AtScale, Sound;
    assert IsLowEnd(at, end.m) <==> end.rest == at.lower;
    Distribute(at.den, end.m, 1);
    InSteps(k, end.m, at.den);
    InSteps(k, end.m + 1, at.den);
  }

  /** The end of the run, without the digits before. */
  lemma LastSettles(s: Span, j: Judging, end: End, result: nat)
    requires Settled(s.total, s.lower, s.upper, s.den, j, end, result) && Sound(s, j, end)
    ensures var at := AtScale(s, end.n);
      && at.den == s.den && (s.upper == s.lower ==> at.upper == at.lower)
      && at.total == end.m * at.den + end.rest && end.rest < at.den
      && end.low == (if end.rest == at.lower then TieSeen(j.order, j.even)
                     else end.rest < at.lower && !(end.rest == 0 && end.n == 0 && j.hidden))
      && end.high == (end.rest + at.upper > at.den || (end.rest + at.upper == at.den && j.even))
      && (end.low || end.high)
      && result == end.m + (if RoundsUp(end.m, at.den, end.rest, end.low, end.high) then 1 else 0)
      && (end.n == 0 && j.hidden ==> at.upper < at.den)
  {
    hide Passed, BelowNext;
    ScaleZero(s);
  }

  // ---- In terms of the value

  ghost predicate Starts(v: Fp, closer: bool, x: int, s: Span)
  {
    v.f > 0 && SetUp(v, closer, x, s.total, s.den, s.lower, s.upper)
  }

  lemma WithinIsInside(v: Fp, closer: bool, x: int, s: Span, n: nat, m: nat)
    requires Starts(v, closer, x, s)
    ensures Inside(v, closer, m, x - n) <==> Within(AtScale(s, n), v.f % 2 == 0, m)
    ensures var at := AtScale(s, n);
      InInterval(v, closer, m, x - n) <==> at.total - at.lower <= m * at.den <= at.total + at.upper
  {
    hide SetUp, ScaledNum, FineDen, LowEnd, HighEnd;
    EndsOf(v, closer, x, s.total, s.den, s.lower, s.upper, Pow(10, n));
    EndCompare(v, closer, x, s.total, s.den, s.lower, s.upper, n, LowEnd(v.f, closer), m);
    EndCompare(v, closer, x, s.total, s.den, s.lower, s.upper, n, HighEnd(v.f, closer), m);
  }

  lemma OnlyLowIsLowEndOnly(v: Fp, closer: bool, x: int, s: Span, n: nat, m: nat)
    requires Starts(v, closer, x, s)
    ensures LowEndOnly(v, closer, m, x - n) <==> OnlyLow(AtScale(s, n), v.f % 2 == 0, m)
  {
    hide SetUp, ScaledNum, FineDen, LowEnd, HighEnd;
    EndsOf(v, closer, x, s.total, s.den, s.lower, s.upper, Pow(10, n));
    EndCompare(v, closer, x, s.total, s.den, s.lower, s.upper, n, LowEnd(v.f, closer), m);
    EndCompare(v, closer, x, s.total, s.den, s.lower, s.upper, n, HighEnd(v.f, closer), m + 1);
  }

  lemma WholeIsMultiple(v: Fp, closer: bool, x: int, s: Span, m: nat)
    requires Starts(v, closer, x, s)
    ensures IsMultiple(v, m, x) <==> IsWhole(s, m)
  {
    hide ScaledNum, ScaledDen;
    SetUpRepresents(v, closer, x, s.total, s.den, s.lower, s.upper);
    SameSideOf(s.total, s.den, ScaledNum(v.f, v.e, x), ScaledDen(v.e, x), 1, m);
  }

  /** The judging that v and the exponent before the fixup step lead to. */
  predicate JudgedBy(v: Fp, flags: Flags, x: int, j: Judging)
  {
    && j.even == (v.f % 2 == 0)
    && j.order == ExponentOrder(v, flags.predecessorCloser, x)
    && j.hidden == ZeroHidden(v, flags, x)
  }

  lemma SpoiledIsAstray(v: Fp, flags: Flags, x: int, s: Span, j: Judging)
    requires v.f > 0
    requires Starts(v, flags.predecessorCloser, FixedUp(v, flags, x), s) && JudgedBy(v, flags, x, j)
    ensures Spoiled(s, j) <==> Astray(v, flags, x)
  {
    hide Starts, IsWhole, IsMultiple, OnlyLow, LowEndOnly, AtScale, ExponentOrder, FixedUp;
    var closer, r := flags.predecessorCloser, FixedUp(v, flags, x);
    forall n, m: nat
      ensures LowEndOnly(v, closer, m, r - n) <==> OnlyLow(AtScale(s, n), j.even, m)
    {
      OnlyLowIsLowEndOnly(v, closer, r, s, n, m);
    }
    forall m: nat
      ensures IsMultiple(v, m, r) <==> IsWhole(s, m)
    {
      WholeIsMultiple(v, closer, r, s, m);
    }
    if y, m: nat :| y <= r && LowEndOnly(v, closer, m, y) {
      assert r - (r - y) == y;
      assert OnlyLow(AtScale(s, r - y), j.even, m);
    }
    if n, m: nat :| OnlyLow(AtScale(s, n), j.even, m) {
      assert LowEndOnly(v, closer, m, r - n);
    }
  }

  lemma ShortestIsText(v: Fp, closer: bool, x: int, s: Span, n: nat, result: nat)
    requires v.f > 0 && Starts(v, closer, x, s)
    ensures IsShortest(s, v.f % 2 == 0, n, result) <==>
      Inside(v, closer, result, x - n) && (n > 0 ==> NoneInside(v, closer, x - n + 1))
  {
    hide Starts, Inside, Within, AtScale;
    WithinIsInside(v, closer, x, s, n, result);
    if n > 0 {
      var e, at, even := x - n + 1, AtScale(s, n - 1), v.f % 2 == 0;
      forall k: nat
        ensures Inside(v, closer, k, e) <==> Within(at, even, k)
      {
        WithinIsInside(v, closer, x, s, n - 1, k);
      }
    }
  }

  lemma OffIsDistance(v: Fp, closer: bool, x: int, s: Span, n: nat, m: nat)
    requires Starts(v, closer, x, s)
    ensures Off(AtScale(s, n), m) * ScaledDen(v.e, x - n) == Distance(v, m, x - n) * s.den
  {
    hide ScaledNum, ScaledDen, Pow;
    var at := AtScale(s, n);
    var sn, sd := ScaledNum(v.f, v.e, x - n), ScaledDen(v.e, x - n);
    SetUpRepresents(v, closer, x, s.total, s.den, s.lower, s.upper);
    RepresentsShift(s.total, s.den, v.f, v.e, x, n);
    ErrorScale(at.total, at.den, sn, sd, m);
    MulSign(at.total - m * at.den, sd, sn - m * sd, at.den);
  }

  lemma MulSign(a: int, b: nat, c: int, d: nat)
    requires a * b == c * d && b > 0 && d > 0
    ensures (if a < 0 then -a else a) * b == (if c < 0 then -c else c) * d
    ensures a < 0 <==> c < 0
  {
    SameSign(a, b, c, d);
    DistributeMinus(b, 0, a);
    DistributeMinus(d, 0, c);
  }

  lemma NearestIsInside(v: Fp, closer: bool, x: int, s: Span, n: nat, result: nat)
    requires v.f > 0 && Starts(v, closer, x, s)
    ensures NearestWithin(AtScale(s, n), v.f % 2 == 0, result) <==> NearestInside(v, closer, result, x - n)
  {
    hide Starts, Inside, Within, AtScale, Off, Distance;
    var at, e, even := AtScale(s, n), x - n, v.f % 2 == 0;
    forall k: nat
      ensures Inside(v, closer, k, e) <==> Within(at, even, k)
      ensures Off(at, result) <= Off(at, k) <==> Distance(v, result, e) <= Distance(v, k, e)
    {
      WithinIsInside(v, closer, x, s, n, k);
      SameDistances(v, closer, x, s, n, result, k);
    }
  }

  lemma SameDistances(v: Fp, closer: bool, x: int, s: Span, n: nat, m: nat, k: nat)
    requires Starts(v, closer, x, s)
    ensures Off(AtScale(s, n), m) <= Off(AtScale(s, n), k) <==> Distance(v, m, x - n) <= Distance(v, k, x - n)
  {
    hide AtScale, Off, Distance, ScaledDen;
    OffIsDistance(v, closer, x, s, n, m);
    OffIsDistance(v, closer, x, s, n, k);
    SameOrder(Off(AtScale(s, n), m), Off(AtScale(s, n), k), ScaledDen(v.e, x - n),
              Distance(v, m, x - n), Distance(v, k, x - n), s.den);
  }

  lemma SameOrder(a: nat, b: nat, p: nat, c: nat, d: nat, q: nat)
    requires p > 0 && q > 0 && a * p == c * q && b * p == d * q
    ensures a <= b <==> c <= d
  {
    DistributeMinus(p, a, b);
    DistributeMinus(q, c, d);
    SameSign(a - b, p, c - d, q);
  }

  lemma LowEndAlike(v: Fp, closer: bool, x: int, s: Span, n: nat, m: nat)
    requires Starts(v, closer, x, s)
    ensures IsLowEnd(AtScale(s, n), m) <==> IsLowEndAt(v, closer, m, x - n)
    ensures 2 * AtScale(s, n).lower < AtScale(s, n).den <==> ScaledNum(2, v.e, x - n) < FineDen(closer, v.e, x - n)
  {
    hide SetUp, ScaledNum, FineDen, LowEnd, HighEnd;
    EndsOf(v, closer, x, s.total, s.den, s.lower, s.upper, Pow(10, n));
    EndCompare(v, closer, x, s.total, s.den, s.lower, s.upper, n, LowEnd(v.f, closer), m);
    EndCompare(v, closer, x, s.total, s.den, s.lower, s.upper, n, 2, 1);
  }

  // ---- The nearer end that would be missed does not occur

  /** What a closer predecessor means with 128 bits. */
  ghost predicate IsShortPower(f: nat)
  {
    exists k: nat | k < 128 :: f == Pow(2, k)
  }

  /** A lower end so high is no multiple of a unit that is larger than the gap: 5^4 would divide 2^(k + 2) - 1. */
  lemma CloserEndIsNoMultiple(v: Fp, k: nat, x: int, m: nat)
    requires k < 128 && v.f == Pow(2, k) && v.f > 0 && v.e >= 32
    requires ScaledNum(2, v.e, x) < FineDen(true, v.e, x)
    ensures !IsLowEndAt(v, true, m, x)
  {
    hide Pow, IsLowEndAt, ScaledNum, ScaledDen, FineDen, LowEnd;
    ScaledParts(v, x, m);
    if IsLowEndAt(v, true, m, x) {
      UnitIsLarge(v.e, x);
      TenIsFives(x);
      EndIsMultiple(4 * v.f - 1, Pow(2, v.e), m, Pow(5, x - 4), Pow(2, x));
      OnlyFives(4 * v.f - 1, v.e);
      NotOneMore(k);
    }
  }

  lemma ScaledParts(v: Fp, x: int, m: nat)
    requires v.f > 0 && v.e >= 32
    ensures ScaledNum(2, v.e, x) < FineDen(true, v.e, x) ==>
      2 * (Pow(2, v.e) * Pow(10, Neg(x))) < 4 * (Pow(2, 0) * Pow(10, Pos(x)))
    ensures IsLowEndAt(v, true, m, x) && x >= 0 ==>
      (4 * v.f - 1) * (Pow(2, v.e) * 1) == m * (4 * (1 * Pow(10, x)))
  {
    assert Pow(2, 0) == 1 && Pow(10, 0) == 1;
    hide Pow;
  }

  lemma TenIsFives(x: nat)
    requires x >= 4
    ensures Pow(10, x) == (625 * Pow(5, x - 4)) * Pow(2, x)
  {
    PowOfProduct(5, 2, x);
    PowAdd(5, 4, x - 4);
    assert Pow(5, 2) == 25;
    PowAdd(5, 2, 2);
  }

  lemma NotOneMore(k: nat)
    requires k < 128
    ensures (4 * Pow(2, k) - 1) % 625 != 0
  {
    hide Pow;
    PlusTwo(k);
    if (4 * Pow(2, k) - 1) % 625 == 0 {
      OneMore(4 * Pow(2, k));
      TwoModulo625(k + 2);
    }
  }

  lemma PlusTwo(k: nat)
    ensures Pow(2, k + 2) == 4 * Pow(2, k) && Pow(2, k) > 0
  {
    PowPositive(2, k);
  }

  lemma OneMore(p: nat)
    requires p > 0 && (p - 1) % 625 == 0
    ensures p % 625 == 1
  {}

  lemma UnitIsLarge(e: nat, x: int)
    requires e >= 32 && 2 * (Pow(2, e) * Pow(10, Neg(x))) < 4 * (Pow(2, 0) * Pow(10, Pos(x)))
    ensures x >= 10
  {
    PowPositive(2, e);
    PowPositive(10, Neg(x));
    MulMonotonic(1, Pow(10, Neg(x)), Pow(2, e));
    PowMonotonic(2, 32, e);
    Pow2Of32();
    assert Pow(2, 0) == 1 && Pow(10, 0) == 1 && Pow(10, 9) == 1_000_000_000;
    hide Pow;
    if 0 <= x < 10 {
      PowMonotonic(10, x, 9);
    }
  }

  lemma EndIsMultiple(a: nat, p: nat, m: nat, fives: nat, twos: nat)
    requires a * (p * 1) == m * (4 * (1 * ((625 * fives) * twos)))
    ensures (a * p) % 625 == 0
  {
    assert a * p == 625 * (m * (4 * (fives * twos))) by {
      MulAssoc(625, fives, twos);
      MulAssoc(4, 625, fives * twos);
      MulAssoc(625, 4, fives * twos);
      MulAssoc(m, 625, 4 * (fives * twos));
      MulAssoc(625, m, 4 * (fives * twos));
    }
  }

  /** So nothing nearer is ever missed: without a closer predecessor the other end would not have been reached. */
  lemma NothingNearerMissed(v: Fp, flags: Flags, exp10: int, x: int, s: Span, j: Judging, end: End, result: nat)
    requires v.f > 0 && (flags.predecessorCloser ==> IsShortPower(v.f)) && (v.e >= 0 ==> exp10 >= 0)
    requires Starts(v, flags.predecessorCloser, x, s) && JudgedBy(v, flags, exp10, j)
    requires Settled(s.total, s.lower, s.upper, s.den, j, end, result) && Sound(s, j, end)
    ensures !LowEndMissed(AtScale(s, end.n), j)
  {
    var closer, at := flags.predecessorCloser, AtScale(s, end.n);
    LastSettles(s, j, end, result);
    ScaledPositive(s, end.n);
    assert !closer ==> at.upper == at.lower;
    assert j.order < 0 ==> v.e >= 32;
    hide Settled, Starts, AtScale, Sound, SetUp, ScaledNum, FineDen, ExponentOrder, ZeroHidden, IsLowEndAt;
    if LowEndMissed(at, j) {
      var m: nat :| IsLowEnd(at, m);
      InSteps(m, end.m, at.den);
      if closer {
        var k: nat :| k < 128 && v.f == Pow(2, k);
        LowEndAlike(v, closer, x, s, end.n, m);
        CloserEndIsNoMultiple(v, k, x - end.n, m);
      }
    }
  }

  // ---- The runs that occur are sound

  /** Half the gap above is less than one unit of an exponent that is no smaller than the binary one. */
  lemma UpperIsSmall(v: Fp, closer: bool, x: int, s: Span)
    requires Starts(v, closer, x, s) && 0 <= v.e <= x
    ensures s.upper < s.den
  {
    assert Pow(10, 0) == 1 && Pow(2, 0) == 1;
    EndCompare(v, closer, x, s.total, s.den, s.lower, s.upper, 0, UpperUnits(closer), 1);
    PowMonotonic(2, v.e, x);
    PowBaseMonotonic(2, 10, x);
    PowPositive(2, v.e);
    hide Pow;
    UnitsBelow(UpperUnits(closer), Fine(closer), Pow(2, v.e), Pow(10, x));
  }

  lemma UnitsBelow(u: nat, c: nat, p: nat, t: nat)
    requires u < c && 0 < p <= t
    ensures u * (p * 1) < c * (1 * t)
  {
    MulMonotonic(p, t, c);
    MulStrictlyMonotonic(u, c, p);
  }

  /** The one odd value with a closer predecessor is a power of two, and its lower end is no decimal. */
  lemma OddTieIsNotCloser(v: Fp, x: int, s: Span, n: nat, m: nat, rest: nat)
    requires Starts(v, true, x, s) && v.f == 1
    requires var at := AtScale(s, n); at.total == m * at.den + rest && 0 < rest < at.den
    ensures rest != AtScale(s, n).lower
  {
    var at := AtScale(s, n);
    EndsOf(v, true, x, s.total, s.den, s.lower, s.upper, Pow(10, n));
    EndCompare(v, true, x, s.total, s.den, s.lower, s.upper, n, 3, m);
    var y := x - n;
    NotByThree(2, Neg(v.e));
    NotByThree(10, Pos(y));
    ProductNotByThree(Pow(2, Neg(v.e)), Pow(10, Pos(y)));
    ProductNotByThree(4, ScaledDen(v.e, y));
    hide Pow;
    if rest == at.lower {
      ThirdOf(at.lower, at.den, m, ScaledNum(1, v.e, y), FineDen(true, v.e, y));
    }
  }

  lemma ThirdOf(lower: nat, den: nat, m: nat, num: nat, fine: nat)
    requires 3 * lower == m * den && 0 < lower < den && fine % 3 != 0
    ensures 3 * num != m * fine
  {
    if m >= 3 {
      MulMonotonic(3, m, den);
    } else if m > 0 {
      ProductNotByThree(m, fine);
    }
  }
}
