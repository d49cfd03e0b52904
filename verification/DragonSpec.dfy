/** What the digit generator has to produce, in exact integer arithmetic. */
module DragonSpec {
  import opened Arith
  import opened Decimals

  /** The number f * 2^e. */
  datatype Fp = Fp(f: nat, e: int)

  /** The bits of the flags argument. */
  datatype Flags = Flags(predecessorCloser: bool, fixup: bool, fixed: bool)

  // ---- f * 2^e / 10^x as a fraction of naturals

  function ScaledNum(f: nat, e: int, x: int): nat
  {
    f * (Pow(2, Pos(e)) * Pow(10, Neg(x)))
  }

  function ScaledDen(e: int, x: int): (d: nat)
    ensures d > 0
  {
    PowPositive(2, Neg(e));
    PowPositive(10, Pos(x));
    MulPositive(Pow(2, Neg(e)), Pow(10, Pos(x)));
    Pow(2, Neg(e)) * Pow(10, Pos(x))
  }

  /** num / den * 10^x is the number f * 2^e. */
  predicate Represents(num: nat, den: nat, f: nat, e: int, x: int)
  {
    num * ScaledDen(e, x) == ScaledNum(f, e, x) * den
  }

  // ---- The rounding interval of a binary number

  /** How many times finer than f's unit the interval's end points are. */
  function Shift(closer: bool): nat
  {
    if closer then 2 else 1
  }

  function Fine(closer: bool): nat
  {
    if closer then 4 else 2
  }

  /** Half the distance to the lower neighbour is one fine unit, to the upper one this many. */
  function UpperUnits(closer: bool): nat
  {
    if closer then 2 else 1
  }

  function LowEnd(f: nat, closer: bool): nat
    requires f > 0
  {
    Fine(closer) * f - 1
  }

  function HighEnd(f: nat, closer: bool): nat
  {
    Fine(closer) * f + UpperUnits(closer)
  }

  /** Doubling or quadrupling the denominator, to express the interval's end points. */
  function FineDen(closer: bool, e: int, x: int): (d: nat)
    ensures d > 0
  {
    Fine(closer) * ScaledDen(e, x)
  }

  /** m * 10^x lies between the midpoints to the two neighbouring binary numbers. */
  predicate InInterval(v: Fp, closer: bool, m: nat, x: int)
    requires v.f > 0
  {
    ScaledNum(LowEnd(v.f, closer), v.e, x) <= m * FineDen(closer, v.e, x) <= ScaledNum(HighEnd(v.f, closer), v.e, x)
  }

  predicate StrictlyInInterval(v: Fp, closer: bool, m: nat, x: int)
    requires v.f > 0
  {
    ScaledNum(LowEnd(v.f, closer), v.e, x) < m * FineDen(closer, v.e, x) < ScaledNum(HighEnd(v.f, closer), v.e, x)
  }

  /** m * 10^x reads back as v: the ends of the interval belong to even values only. */
  predicate Inside(v: Fp, closer: bool, m: nat, x: int)
    requires v.f > 0
  {
    if v.f % 2 == 0 then InInterval(v, closer, m, x) else StrictlyInInterval(v, closer, m, x)
  }

  /** The upper end of the interval is below limit * 10^x, or meets it without belonging (v.f odd). */
  predicate UpperEndFits(v: Fp, closer: bool, x: int, limit: nat)
  {
    var high, bound := ScaledNum(HighEnd(v.f, closer), v.e, x), limit * FineDen(closer, v.e, x);
    high < bound || (high == bound && v.f % 2 == 1)
  }

  /** The lower end is m * 10^x exactly. */
  predicate IsLowEndAt(v: Fp, closer: bool, m: nat, x: int)
    requires v.f > 0
  {
    ScaledNum(LowEnd(v.f, closer), v.e, x) == m * FineDen(closer, v.e, x)
  }

  /** It is, and no greater multiple of 10^x reads back as v. */
  predicate LowEndOnly(v: Fp, closer: bool, m: nat, x: int)
    requires v.f > 0
  {
    IsLowEndAt(v, closer, m, x) && UpperEndFits(v, closer, x, m + 1)
  }

  /** v is m * 10^x exactly. */
  predicate IsMultiple(v: Fp, m: nat, x: int)
  {
    ScaledNum(v.f, v.e, x) == m * ScaledDen(v.e, x)
  }

  /** How the exponents of a remainder and of lower compare, once a digit has been divided out. */
  function ExponentOrder(v: Fp, closer: bool, x: int): int
  {
    if v.e >= 0 then Sign(Min((v.e + Shift(closer)) / 32, x / 32) - v.e / 32) else 0
  }

  /** The comparison with lower misjudges equality: it must hold for even values and fail for odd ones. */
  predicate TiesMisjudged(v: Fp, closer: bool, x: int)
  {
    if v.f % 2 == 0 then ExponentOrder(v, closer, x) < 0 else ExponentOrder(v, closer, x) > 0
  }

  /** A zero remainder is overlooked after the first digit: x has not been fixed up, and lower's exponent is smaller. */
  predicate ZeroHidden(v: Fp, flags: Flags, x: int)
  {
    ExponentOrder(v, flags.predecessorCloser, x) > 0 && FixedUp(v, flags, x) == x
  }

  /**
    The shortest mode goes astray: equality is misjudged and the lower end is all that reads back at
    some scale, or v itself is a multiple of 10^x and goes unnoticed.
   */
  ghost predicate Astray(v: Fp, flags: Flags, x: int)
    requires v.f > 0
  {
    var closer, r := flags.predecessorCloser, FixedUp(v, flags, x);
    || (TiesMisjudged(v, closer, x) && exists y, m: nat | y <= r :: LowEndOnly(v, closer, m, y))
    || (ZeroHidden(v, flags, x) && exists m: nat :: IsMultiple(v, m, x))
  }

  /** No multiple of 10^x reads back as v. */
  ghost predicate NoneInside(v: Fp, closer: bool, x: int)
    requires v.f > 0
  {
    forall m: nat :: !Inside(v, closer, m, x)
  }

  /** data * 10^e reads back as v, and no text with a digit less does. */
  ghost predicate ShortestText(v: Fp, closer: bool, data: seq<char>, e: int)
    requires v.f > 0
  {
    Inside(v, closer, Decimal(data), e) && (|data| > 1 ==> NoneInside(v, closer, e + 1))
  }

  /** How far m * 10^x is from v, in units of 10^x / ScaledDen. */
  function Distance(v: Fp, m: nat, x: int): nat
  {
    var exact, rounded := ScaledNum(v.f, v.e, x), m * ScaledDen(v.e, x);
    if rounded <= exact then exact - rounded else rounded - exact
  }

  /** No multiple of 10^x that reads back as v is nearer to it than m * 10^x. */
  ghost predicate NearestInside(v: Fp, closer: bool, m: nat, x: int)
    requires v.f > 0
  {
    forall k: nat :: Inside(v, closer, k, x) ==> Distance(v, m, x) <= Distance(v, k, x)
  }

  /** The decimal exponent after the fixup step. */
  function FixedUp(v: Fp, flags: Flags, x: int): int
  {
    if flags.fixup && UpperEndFits(v, flags.predecessorCloser, x, 1) then x - 1 else x
  }

  /** v is above half of 10^x. */
  predicate OverHalf(v: Fp, x: int)
  {
    2 * ScaledNum(v.f, v.e, x) > ScaledDen(v.e, x)
  }

  /** The decimal exponent is not too small for the value: v < 10^(x + 1), with room for the interval when shortest. */
  predicate ExponentFits(v: Fp, flags: Flags, numDigits: int, x: int)
  {
    if numDigits < 0 then UpperEndFits(v, flags.predecessorCloser, x, 10)
    else ScaledNum(v.f, v.e, x) < 10 * ScaledDen(v.e, x)
  }

  // ---- Changing the decimal exponent

  /** Dividing by ten more often multiplies the scaled fraction by tens. */
  lemma ScaleShift(f: nat, e: int, x: int, n: nat)
    ensures ScaledNum(f, e, x - n) * ScaledDen(e, x) == (ScaledNum(f, e, x) * Pow(10, n)) * ScaledDen(e, x - n)
  {
    hide Pow;
    var a, b := Pow(10, Neg(x)), Pow(10, Pos(x));
    var a', b' := Pow(10, Neg(x - n)), Pow(10, Pos(x - n));
    PowTenShift(x, n);
    ScaleAlgebra(f, Pow(2, Pos(e)), Pow(2, Neg(e)), a, b, a', b', Pow(10, n));
  }

  lemma PowTenShift(x: int, n: nat)
    ensures Pow(10, Neg(x - n)) * Pow(10, Pos(x)) == (Pow(10, Neg(x)) * Pow(10, n)) * Pow(10, Pos(x - n))
  {
    assert Pow(10, 0) == 1;
    hide Pow;
    if x <= 0 {
      PowAdd(10, Neg(x), n);
    } else if x - n >= 0 {
      PowAdd(10, n, x - n);
    } else {
      PowAdd(10, n - x, x);
    }
  }

  lemma ScaleAlgebra(f: nat, p: nat, v: nat, a: nat, b: nat, a': nat, b': nat, t: nat)
    requires a' * b == (a * t) * b'
    ensures (f * (p * a')) * (v * b) == ((f * (p * a)) * t) * (v * b')
  {
    var u := f * p;
    MulAssoc(f, p, a);
    MulAssoc(f, p, a');
    MulSwap(u, a', v, b);
    MulAssoc(u, a, t);
    MulSwap(u, a * t, v, b');
  }

  lemma RepresentsShift(num: nat, den: nat, f: nat, e: int, x: int, n: nat)
    requires Represents(num, den, f, e, x)
    ensures Represents(num * Pow(10, n), den, f, e, x - n)
  {
    var t := Pow(10, n);
    ScaleShift(f, e, x, n);
    ShiftAlgebra(num, den, ScaledNum(f, e, x), ScaledDen(e, x), ScaledNum(f, e, x - n), ScaledDen(e, x - n), t);
  }

  lemma ShiftAlgebra(num: nat, den: nat, sn: nat, sd: nat, sn': nat, sd': nat, t: nat)
    requires sd > 0
    requires num * sd == sn * den && sn' * sd == (sn * t) * sd'
    ensures (num * t) * sd' == sn' * den
  {
    calc {
      ((num * t) * sd') * sd;
    ==  { MulAssoc(num * t, sd', sd); MulAssoc(num * t, sd, sd'); }
      ((num * t) * sd) * sd';
    ==  { MulAssoc(num, t, sd); MulAssoc(num, sd, t); }
      ((num * sd) * t) * sd';
    ==
      ((sn * den) * t) * sd';
    ==  { MulAssoc(sn, den, t); MulAssoc(sn, t, den); MulAssoc(sn * t, den, sd'); MulAssoc(sn * t, sd', den); }
      ((sn * t) * sd') * den;
    ==
      (sn' * sd) * den;
    ==  { MulAssoc(sn', sd, den); MulAssoc(sn', den, sd); }
      (sn' * den) * sd;
    }
    MulCancel((num * t) * sd', sn' * den, sd);
  }
}
