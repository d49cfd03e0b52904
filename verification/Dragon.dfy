/** Exact digit generation after Steele and White, over big integers updated in place. */
module Dragon {
  import opened Arith
  import opened Bigits
  import opened BigintSpec
  import opened Bigints
  import opened Decimals
  import opened DragonSpec
  import opened DragonSteps
  import opened DragonSetUp
  import opened DragonShortest

  /** The text buffer the digits go to. */
  class CharBuffer {
    var data: seq<char>

    /** Grown elements are not initialised by the original; here they are some character. */
    method Resize(n: nat)
      modifies this
      ensures |data| == n
    {
      data := if n <= |data| then data[..n] else data + seq(n - |data|, _ => ' ');
    }

    method PushBack(c: char)
      modifies this
      ensures data == old(data) + [c]
    {
      data := data + [c];
    }
  }

  // ---- Set-up

  /** Sets value == numerator / denominator * 10^x, with lower and upper the distances to its neighbours' midpoints. */
  method Start(v: Fp, closer: bool, x: int, numerator: Bigint, denominator: Bigint, lower: Bigint, upperStore: Bigint)
    returns (upper: Bigint)
    requires InRange(v, closer, x) && (v.e >= 0 ==> x >= 0)
    requires numerator != denominator && numerator != lower && numerator != upperStore
    requires denominator != lower && denominator != upperStore && lower != upperStore
    modifies numerator, denominator, lower, upperStore
    ensures upper == if closer then upperStore else lower
    ensures SetUp(v, closer, x, numerator.V(), denominator.V(), lower.V(), upper.V())
    ensures Ready(numerator.bigits, numerator.exp, denominator.bigits, denominator.exp)
    ensures Meets(numerator.bigits, numerator.exp, denominator.bigits, denominator.exp) <==> Misread(v, closer, x)
    ensures Normal(lower.bigits) && Normal(upper.bigits) && Normal(numerator.bigits)
    ensures numerator.exp == NumExp(v, closer, x) && lower.exp == LowerExp(v, x)
    ensures IsDenExp(v, closer, x, denominator.exp)
    ensures v.e >= 0 ==> lower.V() == Pow(2, v.e)
  {
    hide ToNat, Weight, Val, Pow, SetUp, IsPowerOfTwo, NeverMeets, Represents, Fine;
    var shift := Shift(closer);
    upper := lower;
    if v.e >= 0 {
      numerator.Assign(v.f);
      numerator.ShiftLeft(v.e + shift);
      lower.Assign(1);
      lower.ShiftLeft(v.e);
      if closer {
        upperStore.Assign(1);
        upperStore.ShiftLeft(v.e + 1);
        upper := upperStore;
      }
      denominator.AssignPow10(x);
      denominator.ShiftLeft(shift);
      SetUpLarge(v, closer, x, numerator.V(), denominator.V(), lower.V(), upper.V());
      if Misread(v, closer, x) {
        MisreadMeets(v, x, numerator.bigits, denominator.bigits);
      } else if numerator.exp > denominator.exp {
        LargeNeverMeets(v, closer, x);
      }
    } else if x < 0 {
      numerator.AssignPow10(-x);
      lower.AssignFrom(numerator);
      if closer {
        upperStore.AssignFrom(numerator);
        upperStore.ShiftLeft(1);
        upper := upperStore;
      }
      Pow2Of128();
      numerator.MultiplyWide(v.f, 64);
      numerator.ShiftLeft(shift);
      denominator.Assign(1);
      denominator.ShiftLeft(shift - v.e);
      SetUpSmall(v, closer, x, numerator.V(), denominator.V(), lower.V(), upper.V());
      if numerator.exp > denominator.exp {
        PowerBelowNextWeight(shift - v.e);
        SmallNeverMeets(numerator.bigits, numerator.exp, denominator.V(), denominator.exp);
      }
    } else {
      numerator.Assign(v.f);
      numerator.ShiftLeft(shift);
      denominator.AssignPow10(x);
      denominator.ShiftLeft(shift - v.e);
      lower.Assign(1);
      if closer {
        upperStore.Assign(2);
        upper := upperStore;
      }
      SetUpMiddle(v, closer, x, numerator.V(), denominator.V(), lower.V(), upper.V());
    }
    ReadyParts(numerator.bigits, numerator.exp, denominator.bigits, denominator.exp);
  }

  // ---- A given number of digits

  /** Rounds a numeral ending in nine up: stores the overflow character and propagates it. */
  method RoundUpNine(buf: CharBuffer, fixed: bool, exp10: int) returns (e: int)
    requires |buf.data| > 0
    requires AllDigits(buf.data[..|buf.data| - 1])
    modifies buf
    ensures AllDigits(buf.data)
    ensures exp10 <= e <= exp10 + 1
    ensures old(10 * Decimal(buf.data[..|buf.data| - 1])) + 10 == TimesPower(Decimal(buf.data), e - exp10)
    ensures |buf.data| == old(|buf.data|) + if fixed && Decimal(buf.data) == Pow(10, old(|buf.data|)) then 1 else 0
    ensures e > exp10 ==> !fixed && Decimal(buf.data) == Pow(10, |buf.data| - 1)
  {
    hide CarryAt, Decimal;
    var n := |buf.data|;
    ghost var total := 10 * Decimal(buf.data[..n - 1]) + 10;
    var overflow := ':';
    buf.data := buf.data[n - 1 := overflow];
    e := exp10;
    var i := n - 1;
    CarryBegins(buf.data, total);
    while i > 0 && buf.data[i] == overflow
      invariant 0 <= i < n && |buf.data| == n
      invariant CarryAt(buf.data, i, total)
    {
      CarryUpStep(buf.data, i, total);
      CarryDigit(buf.data, i, total);
      buf.data := buf.data[i := '0'];
      buf.data := buf.data[i - 1 := DigitChar(DigitOf(buf.data[i - 1]) + 1)];
      i := i - 1;
    }
    CarryEnds(buf.data, i, total);
    if buf.data[0] == overflow {
      buf.data := buf.data[0 := '1'];
      if fixed {
        buf.PushBack('0');
      } else {
        e := e + 1;
      }
    }
  }

  lemma CarryBegins(s: seq<char>, total: nat)
    requires |s| > 0 && AllDigits(s[..|s| - 1]) && s[|s| - 1] == ':'
    requires total == 10 * Decimal(s[..|s| - 1]) + 10
    ensures CarryAt(s, |s| - 1, total)
  {
    forall j | 0 <= j < |s| - 1
      ensures IsDigit(s[j])
    {
      assert s[..|s| - 1][j] == s[j];
    }
  }

  lemma CarryDigit(s: seq<char>, i: nat, total: nat)
    requires CarryAt(s, i, total) && i > 0
    ensures IsDigit(s[i - 1]) && DigitOf(s[i - 1]) <= 9
  {}

  /** Where the carry stops: in a digit, or past the first one with zeros below. */
  lemma CarryEnds(s: seq<char>, i: nat, total: nat)
    requires CarryAt(s, i, total) && (i == 0 || s[i] != ':')
    ensures s[0] != ':' ==> AllDigits(s) && Decimal(s) == total && total < Pow(10, |s|)
    ensures s[0] == ':' ==>
      var t := s[0 := '1'];
      && AllDigits(t) && Decimal(t) == Pow(10, |s| - 1) && total == Pow(10, |s|)
      && AllDigits(t + ['0']) && Decimal(t + ['0']) == total
    ensures Pow(10, 0) == 1 && Pow(10, 1) == 10
  {
    if s[0] == ':' {
      var t := s[0 := '1'];
      DecimalLeading(s);
      DecimalLeading(t);
      DecimalSnoc(t, '0');
    } else {
      DecimalBound(s);
    }
  }

  /**
    The digits of numerator / denominator, the last one rounded to nearest, ties to even. Where the
    first division misses an equal denominator, everything is left to the second digit.
   */
  method GenerateDigits(numerator: Bigint, denominator: Bigint, numDigits: nat, fixed: bool, buf: CharBuffer,
                        exp10: int)
    returns (e: int)
    requires numDigits > 0 && numerator != denominator
    requires Ready(numerator.bigits, numerator.exp, denominator.bigits, denominator.exp)
    requires numerator.V() < 10 * denominator.V()
    modifies numerator, buf
    ensures var misread := old(Meets(numerator.bigits, numerator.exp, denominator.bigits, denominator.exp));
      if misread && numDigits > 1 then buf.data == MisreadText(numDigits) && e == exp10
      else && AllDigits(buf.data)
           && exp10 <= e <= exp10 + 1
           && RoundsHalfEven(old(numerator.V()) * Pow(10, numDigits - 1), denominator.V(),
                             TimesPower(Decimal(buf.data), e - exp10))
           && |buf.data| == numDigits + (if fixed && Decimal(buf.data) == Pow(10, numDigits) then 1 else 0)
           && (e > exp10 ==> !fixed && Decimal(buf.data) == Pow(10, numDigits - 1))
  {
    hide Val, Ready, Meets, Emitted, DividesInto, Generated, Decimal, RoundsHalfEven, DigitOf, MisreadText, Pow,
         CompareResult;
    ghost var num0, den := numerator.V(), denominator.V();
    ghost var misread := Meets(numerator.bigits, numerator.exp, denominator.bigits, denominator.exp);
    buf.Resize(numDigits);
    assert buf.data[..0] == [];
    ReadyParts(numerator.bigits, numerator.exp, denominator.bigits, denominator.exp);
    EmittedStart(num0, den, misread);
    var i := 0;
    while i < numDigits - 1
      invariant 0 <= i < numDigits == |buf.data|
      invariant Ready(numerator.bigits, numerator.exp, denominator.bigits, denominator.exp)
      invariant Meets(numerator.bigits, numerator.exp, denominator.bigits, denominator.exp) <==> misread && i == 0
      invariant Emitted(num0, den, misread, buf.data[..i], numerator.V())
    {
      ghost var before, num := buf.data[..i], numerator.V();
      EmittedBound(num0, den, misread, before, num);
      var digit := NextDigit(numerator, denominator);
      EmittedStep(num0, den, misread, before, num, digit, numerator.V());
      assert buf.data[i := DigitChar(digit)][..i + 1] == before + [DigitChar(digit)];
      buf.data := buf.data[i := DigitChar(digit)];
      TimesTen(numerator, denominator);
      i := i + 1;
    }
    ghost var before, num := buf.data[..i], numerator.V();
    EmittedBound(num0, den, misread, before, num);
    var digit := NextDigit(numerator, denominator);
    ghost var rest := numerator.V();
    EmittedLast(num0, den, misread, before, num, digit, rest);
    ReadyParts(numerator.bigits, numerator.exp, denominator.bigits, denominator.exp);
    var result := AddCompare(numerator, numerator, denominator);
    if result > 0 || (result == 0 && digit % 2 != 0) {
      if digit == 9 {
        e := RoundUpNine(buf, fixed, exp10);
        return;
      }
      digit := digit + 1;
    }
    LastCharacter(buf.data, DigitChar(digit));
    if IsDigit(DigitChar(digit)) && AllDigits(before) {
      LastDigit(buf.data, DigitChar(digit));
    }
    buf.data := buf.data[numDigits - 1 := DigitChar(digit)];
    e := exp10;
  }

  lemma LastCharacter(s: seq<char>, c: char)
    requires |s| > 0
    ensures s[|s| - 1 := c] == s[..|s| - 1] + [c]
  {}

  /**
    The characters written so far and ten times the remainder. A misread numerator is still there
    after the first digit, and gone after the second.
   */
  ghost predicate Emitted(num0: nat, den: nat, misread: bool, s: seq<char>, num: nat)
  {
    && den > 0
    && if misread then
         s == MisreadText(|s|) && num0 == den && num == (if |s| == 0 then den else if |s| == 1 then den * 10 else 0)
       else AllDigits(s) && num < 10 * den && Generated(num0, den, num, Decimal(s), |s|)
  }

  lemma EmittedStart(num: nat, den: nat, misread: bool)
    requires den > 0 && num < 10 * den && (misread ==> num == den)
    ensures Emitted(num, den, misread, [], num)
  {
    assert Pow(10, 0) == 1;
  }

  lemma EmittedBound(num0: nat, den: nat, misread: bool, s: seq<char>, num: nat)
    requires Emitted(num0, den, misread, s, num)
    ensures num <= 10 * den && (!misread ==> num < 10 * den)
  {}

  /** What a digit is: the quotient, or 0 with everything left when it was missed. */
  predicate IsNext(num: nat, den: nat, missed: bool, digit: nat, rest: nat)
  {
    && digit <= 10 && (num < 10 * den ==> digit <= 9)
    && if missed then digit == 0 && rest == num else DividesInto(num, den, digit, rest)
  }

  lemma EmittedStep(num0: nat, den: nat, misread: bool, s: seq<char>, num: nat, digit: nat, rest: nat)
    requires Emitted(num0, den, misread, s, num) && IsNext(num, den, misread && |s| == 0, digit, rest)
    ensures Emitted(num0, den, misread, s + [DigitChar(digit)], rest * 10)
  {
    if misread {
      WholeQuotient(num, den, digit, rest);
      assert (s + [DigitChar(digit)])[..|s|] == s;
    } else {
      DigitStep(num0, den, num, Decimal(s), |s|, digit, rest);
      DecimalSnoc(s, DigitChar(digit));
    }
  }

  /** Ten denominators are ten times the denominator, and nothing is no times. */
  lemma WholeQuotient(num: nat, den: nat, digit: nat, rest: nat)
    ensures DividesInto(num, den, digit, rest) && num == den * 10 ==> digit == 10 && rest == 0
    ensures DividesInto(num, den, digit, rest) && num == 0 ==> digit == 0 && rest == 0
  {
    if DividesInto(num, den, digit, rest) && num == den * 10 {
      InSteps(digit, 10, den);
    }
    if DividesInto(num, den, digit, rest) && num == 0 {
      InSteps(digit, 0, den);
    }
  }

  /** The last digit: rounded, and never rounded where ten was written. */
  lemma EmittedLast(num0: nat, den: nat, misread: bool, s: seq<char>, num: nat, digit: nat, rest: nat)
    requires Emitted(num0, den, misread, s, num) && IsNext(num, den, misread && |s| == 0, digit, rest)
    ensures var up := RoundsUp(digit, den, rest, true, true);
      if misread && |s| > 0 then !up && s + [DigitChar(digit)] == MisreadText(|s| + 1)
      else && AllDigits(s) && digit <= 9
           && RoundsHalfEven(num0 * Pow(10, |s|), den, 10 * Decimal(s) + digit + if up then 1 else 0)
  {
    hide RoundsHalfEven, Pow, Decimal, MisreadText, Generated, DividesInto;
    if misread {
      MisreadLast(num0, den, s, num, digit, rest);
    } else {
      RoundedLast(num0, den, Decimal(s), |s|, num, digit, rest);
    }
  }

  lemma RoundedLast(num0: nat, den: nat, prefix: nat, n: nat, num: nat, digit: nat, rest: nat)
    requires Generated(num0, den, num, prefix, n) && DividesInto(num, den, digit, rest)
    ensures RoundsHalfEven(num0 * Pow(10, n), den,
                           10 * prefix + digit + if RoundsUp(digit, den, rest, true, true) then 1 else 0)
  {
    DigitStep(num0, den, num, prefix, n, digit, rest);
    RoundLast(num0 * Pow(10, n), den, prefix, digit, rest);
  }

  lemma MisreadLast(num0: nat, den: nat, s: seq<char>, num: nat, digit: nat, rest: nat)
    requires Emitted(num0, den, true, s, num) && IsNext(num, den, |s| == 0, digit, rest)
    ensures if |s| > 0 then rest == 0 && s + [DigitChar(digit)] == MisreadText(|s| + 1)
            else && s == [] && digit == 0 && rest == den && Decimal(s) == 0
                 && RoundsHalfEven(num0 * Pow(10, 0), den, 1)
  {
    if |s| > 0 {
      WholeQuotient(num, den, digit, rest);
      assert (s + [DigitChar(digit)])[..|s|] == s;
    } else {
      assert Pow(10, 0) == 1;
    }
  }

  lemma LastDigit(s: seq<char>, c: char)
    requires |s| > 0 && AllDigits(s[..|s| - 1]) && IsDigit(c)
    ensures var t := s[|s| - 1 := c];
      AllDigits(t) && Decimal(t) == 10 * Decimal(s[..|s| - 1]) + DigitOf(c) && Decimal(t) < Pow(10, |s|)
    ensures Pow(10, 0) == 1
  {
    var n := |s| - 1;
    var t := s[n := c];
    assert t[..n] == s[..n];
    assert t == s[..n] + [c];
    DecimalBound(t);
  }

  /** One division step; the quotient is a digit, or ten after a missed one. */
  method NextDigit(numerator: Bigint, denominator: Bigint) returns (digit: nat)
    requires numerator != denominator
    requires Ready(numerator.bigits, numerator.exp, denominator.bigits, denominator.exp)
    requires numerator.V() <= 10 * denominator.V()
    modifies numerator
    ensures Ready(numerator.bigits, numerator.exp, denominator.bigits, denominator.exp)
    ensures var missed := old(Meets(numerator.bigits, numerator.exp, denominator.bigits, denominator.exp));
      && IsNext(old(numerator.V()), denominator.V(), missed, digit, numerator.V())
      && (Meets(numerator.bigits, numerator.exp, denominator.bigits, denominator.exp) <==> missed)
    ensures numerator.exp == if digit == 0 then old(numerator.exp) else Min(old(numerator.exp), denominator.exp)
    ensures denominator.V() > 0
  {
    hide Val, NeverMeets, Meets;
    ghost var s, se, num := numerator.bigits, numerator.exp, numerator.V();
    ReadyParts(s, se, denominator.bigits, denominator.exp);
    NormalIsPositive(denominator.bigits, denominator.exp);
    digit := numerator.DivmodAssign(denominator);
    if !Meets(s, se, denominator.bigits, denominator.exp) {
      DivisibleAfter(s, se, numerator.bigits, numerator.exp, denominator.bigits, denominator.exp);
      ReadyParts(numerator.bigits, numerator.exp, denominator.bigits, denominator.exp);
      DigitBound(num, denominator.V(), digit, numerator.V());
    }
  }

  lemma DigitBound(num: nat, den: nat, digit: nat, rest: nat)
    requires DividesInto(num, den, digit, rest) && num <= 10 * den
    ensures digit <= 10 && (num < 10 * den ==> digit <= 9)
  {
    InSteps(digit, 10, den);
    InSteps(digit, 9, den);
  }

  method TimesTen(numerator: Bigint, denominator: Bigint)
    requires numerator != denominator
    requires Ready(numerator.bigits, numerator.exp, denominator.bigits, denominator.exp)
    modifies numerator`bigits
    ensures Divisible(numerator.bigits, numerator.exp, denominator.bigits, denominator.exp)
    ensures Ready(numerator.bigits, numerator.exp, denominator.bigits, denominator.exp)
    ensures !Meets(numerator.bigits, numerator.exp, denominator.bigits, denominator.exp)
    ensures numerator.V() == old(numerator.V()) * 10
  {
    hide Val, NeverMeets, Meets;
    ghost var s := numerator.bigits;
    ReadyParts(s, numerator.exp, denominator.bigits, denominator.exp);
    numerator.Multiply(10);
    if Meets(s, numerator.exp, denominator.bigits, denominator.exp) {
      MisreadTimesTen(s, numerator.bigits, numerator.exp, denominator.bigits, denominator.exp);
    } else {
      DivisibleTimesTen(s, numerator.bigits, numerator.exp, denominator.bigits, denominator.exp);
    }
    ReadyParts(numerator.bigits, numerator.exp, denominator.bigits, denominator.exp);
  }

  // ---- The shortest digits

  /**
    Digits until the text is inside the rounding interval, as far as the comparisons show it. The
    judging j says how they see equal numbers and a zero remainder.
   */
  method GenerateShortest(numerator: Bigint, denominator: Bigint, lower: Bigint, upper: Bigint, even: nat,
                          buf: CharBuffer, exp10: int, ghost j: Judging)
    returns (e: int, ghost end: End)
    requires numerator != denominator && numerator != lower && numerator != upper
    requires denominator != lower && denominator != upper && even <= 1 && j.even == (even == 1)
    requires Ready(numerator.bigits, numerator.exp, denominator.bigits, denominator.exp)
    requires Normal(lower.bigits) && Normal(upper.bigits)
    requires BelowNext(numerator.V(), denominator.V(), upper.V(), j)
    requires Judges(j, numerator.V(), numerator.exp, denominator.exp, lower.V(), lower.exp)
    requires j.hidden ==> lower.V() < denominator.V()
    requires Meets(numerator.bigits, numerator.exp, denominator.bigits, denominator.exp) ==>
      !j.hidden && upper.V() < denominator.V()
    modifies numerator, lower, upper, buf
    ensures |buf.data| > 0 && AllDigits(buf.data)
    ensures e == exp10 - (|buf.data| - 1) && end.n == |buf.data| - 1
    ensures Settled(old(numerator.V()), old(lower.V()), old(upper.V()), denominator.V(), j, end, Decimal(buf.data))
  {
    hide Val, Ready, Divisible, Meets, DividesInto, Emitting, Settled, Decimal, LowSeen, HighSeen, BelowNext,
         Judges, RoundsUp, CompareResult, DigitOf, Normal, Pow, AllDigits, Addable;
    ghost var num0, low0, high0, den := numerator.V(), lower.V(), upper.V(), denominator.V();
    ghost var first, le := numerator.exp, lower.exp;
    var data: seq<char> := [];
    EmittingStart(num0, low0, high0, den, j);
    JudgesMeans(j, num0, first, denominator.exp, low0, le);
    while true
      invariant Ready(numerator.bigits, numerator.exp, denominator.bigits, denominator.exp)
      invariant Meets(numerator.bigits, numerator.exp, denominator.bigits, denominator.exp) ==>
        data == [] && !j.hidden && num0 == numerator.V() && high0 == upper.V() < den
      invariant Normal(lower.bigits) && Normal(upper.bigits) && lower.exp == le
      invariant numerator.exp == if Decimal(data) == 0 then first else Min(first, denominator.exp)
      invariant AllDigits(data)
      invariant Emitting(num0, low0, high0, den, j, Decimal(data), |data|, numerator.V(), lower.V(), upper.V())
      decreases den - lower.V()
    {
      ghost var num, prefix := numerator.V(), Decimal(data);
      ghost var missed := Meets(numerator.bigits, numerator.exp, denominator.bigits, denominator.exp);
      ReadyParts(numerator.bigits, numerator.exp, denominator.bigits, denominator.exp);
      var digit, low, high := ShortestDigit(numerator, denominator, lower, upper, even,
                                            j, num0, low0, high0, first, prefix, |data|);
      AppendDigit(data, digit);
      var digits := data + [DigitChar(digit)];
      if low || high {
        end := EndOf(missed, prefix, |data|, num, digit, numerator.V(), low, high);
        EndSettles(num0, low0, high0, den, j, prefix, |data|, num, lower.V(), upper.V(),
                   digit, numerator.V(), low, high, missed);
        data := EndShortest(numerator, denominator, digits, digit, low, high);
        buf.data := data;
        e := exp10 - (|data| - 1);
        return;
      }
      ContinueStep(num0, low0, high0, den, j, prefix, |data|, num, lower.V(), upper.V(), digit, numerator.V());
      data := digits;
      TimesTen(numerator, denominator);
      lower.Multiply(10);
      if upper != lower {
        upper.Multiply(10);
      }
    }
  }

  lemma JudgesMeans(j: Judging, num: nat, ne: nat, de: nat, lower: nat, le: nat)
    requires Judges(j, num, ne, de, lower, le)
    ensures lower < num
  {}

  lemma AppendDigit(data: seq<char>, digit: nat)
    requires AllDigits(data) && digit <= 9
    ensures var digits := data + [DigitChar(digit)];
      AllDigits(digits) && Decimal(digits) == 10 * Decimal(data) + digit && digits[|digits| - 1] == DigitChar(digit)
  {
    DecimalSnoc(data, DigitChar(digit));
  }

  /** How a run ends; a misread first digit is as good as the right one with nothing left. */
  function EndOf(missed: bool, prefix: nat, n: nat, num: nat, digit: nat, rest: nat, low: bool, high: bool): End
  {
    if missed then End(0, 0, num, 1, 0, true, false)
    else End(prefix, n, num, 10 * prefix + digit, rest, low, high)
  }

  lemma EndSettles(num0: nat, lower0: nat, upper0: nat, den: nat, j: Judging, prefix: nat, n: nat, num: nat,
                   lower: nat, upper: nat, digit: nat, rest: nat, low: bool, high: bool, missed: bool)
    requires Emitting(num0, lower0, upper0, den, j, prefix, n, num, lower, upper) && lower > 0
    requires low == LowSeen(rest, lower, n, j) && high == HighSeen(rest, den, upper, j) && (low || high)
    requires IsNext(num, den, missed, digit, rest)
    requires missed ==> n == 0 && prefix == 0 && !j.hidden && num0 == num == den && upper < den && lower0 < num0
    ensures Settled(num0, lower0, upper0, den, j, EndOf(missed, prefix, n, num, digit, rest, low, high),
                    10 * prefix + digit + if RoundsUp(digit, den, rest, low, high) then 1 else 0)
  {
    if missed {
      assert Pow(10, 0) == 1;
      MisreadSettles(num0, lower0, upper0, den, j);
    } else {
      StopStep(num0, lower0, upper0, den, j, prefix, n, num, lower, upper, digit, rest, low, high);
    }
  }

  /** Divides out the next digit and tests the remainder against both ends of the interval. */
  method ShortestDigit(numerator: Bigint, denominator: Bigint, lower: Bigint, upper: Bigint, even: nat,
                       ghost j: Judging, ghost num0: nat, ghost lower0: nat, ghost upper0: nat,
                       ghost first: nat, ghost prefix: nat, ghost n: nat)
    returns (digit: nat, low: bool, high: bool)
    requires numerator != denominator && numerator != lower && numerator != upper
    requires even <= 1 && j.even == (even == 1)
    requires Ready(numerator.bigits, numerator.exp, denominator.bigits, denominator.exp)
    requires Normal(lower.bigits) && Normal(upper.bigits)
    requires Judges(j, num0, first, denominator.exp, lower0, lower.exp)
    requires Emitting(num0, lower0, upper0, denominator.V(), j, prefix, n, numerator.V(), lower.V(), upper.V())
    requires numerator.exp == if prefix == 0 then first else Min(first, denominator.exp)
    requires Meets(numerator.bigits, numerator.exp, denominator.bigits, denominator.exp) ==>
      n == 0 && prefix == 0
    modifies numerator
    ensures Ready(numerator.bigits, numerator.exp, denominator.bigits, denominator.exp)
    ensures Normal(denominator.bigits) && Addable(numerator.bigits, numerator.exp, denominator.NumBigits())
    ensures numerator.exp == if 10 * prefix + digit == 0 then first else Min(first, denominator.exp)
    ensures var missed := old(Meets(numerator.bigits, numerator.exp, denominator.bigits, denominator.exp));
      && IsNext(old(numerator.V()), denominator.V(), missed, digit, numerator.V())
      && (missed ==> high)
    ensures low == LowSeen(numerator.V(), lower.V(), n, j)
    ensures high == HighSeen(numerator.V(), denominator.V(), upper.V(), j)
    ensures digit <= 9 && (digit == 9 ==> !high) && lower.V() > 0
  {
    hide Val, Ready, Divisible, Meets, DividesInto, CompareResult, Judges, LowSeen, Pow;
    ghost var num := numerator.V();
    NormalIsPositive(upper.bigits, upper.exp);
    ShortestBounds(num0, lower0, upper0, denominator.V(), j, prefix, n, num, lower.V(), upper.V());
    ReadyParts(numerator.bigits, numerator.exp, denominator.bigits, denominator.exp);
    digit := NextDigit(numerator, denominator);
    ghost var rest := numerator.V();
    DigitOrMissed(num0, lower0, upper0, denominator.V(), j, prefix, n, num, lower.V(), upper.V(), digit, rest,
                  old(Meets(numerator.bigits, numerator.exp, denominator.bigits, denominator.exp)));
    ReadyParts(numerator.bigits, numerator.exp, denominator.bigits, denominator.exp);
    LowAnswers(numerator.bigits, numerator.exp, lower.bigits, lower.exp, even, j,
               num0, first, denominator.V(), denominator.exp, lower0, n, 10 * prefix + digit);
    var comparison := Compare(numerator, lower);
    low := comparison - even < 0;
    comparison := AddCompare(numerator, upper, denominator);
    high := comparison + even > 0;
  }

  lemma ShortestBounds(num0: nat, lower0: nat, upper0: nat, den: nat, j: Judging,
                       prefix: nat, n: nat, num: nat, lower: nat, upper: nat)
    requires Emitting(num0, lower0, upper0, den, j, prefix, n, num, lower, upper) && upper > 0
    ensures num < 10 * den && BelowNext(num, den, upper, j) && lower == lower0 * Pow(10, n)
  {}

  /** The digit in terms of the first numerator, missed or not. */
  lemma DigitOrMissed(num0: nat, lower0: nat, upper0: nat, den: nat, j: Judging, prefix: nat, n: nat, num: nat,
                      lower: nat, upper: nat, digit: nat, rest: nat, missed: bool)
    requires Emitting(num0, lower0, upper0, den, j, prefix, n, num, lower, upper) && upper > 0
    requires IsNext(num, den, missed, digit, rest) && (missed ==> n == 0 && prefix == 0 && num >= den)
    ensures num0 * Pow(10, n) == (10 * prefix + digit) * den + rest
    ensures digit == 9 ==> !HighSeen(rest, den, upper, j)
    ensures missed ==> HighSeen(rest, den, upper, j)
  {
    if missed {
      assert Pow(10, 0) == 1;
    } else {
      DigitStep(num0, den, num, prefix, n, digit, rest);
      NineIsNotHigh(num, den, upper, j, digit, rest);
    }
  }

  /** The last digit, rounded up when only that, or the nearer half, is inside the interval. */
  method EndShortest(numerator: Bigint, denominator: Bigint, digits: seq<char>, digit: nat, low: bool, high: bool)
    returns (data: seq<char>)
    requires Normal(denominator.bigits) && Addable(numerator.bigits, numerator.exp, denominator.NumBigits())
    requires |digits| > 0 && AllDigits(digits) && digit <= 9 && digits[|digits| - 1] == DigitChar(digit)
    requires (low || high) && (digit == 9 ==> !high)
    ensures |data| == |digits| && AllDigits(data)
    ensures Decimal(data) ==
      Decimal(digits) + if RoundsUp(digit, denominator.V(), numerator.V(), low, high) then 1 else 0
  {
    hide Val;
    var last := |digits| - 1;
    data := digits;
    if !low {
      LastDigit(data, DigitChar(digit + 1));
      data := data[last := DigitChar(digit + 1)];
    } else if high {
      var result := AddCompare(numerator, numerator, denominator);
      if result > 0 || (result == 0 && digit % 2 != 0) {
        LastDigit(data, DigitChar(digit + 1));
        data := data[last := DigitChar(digit + 1)];
      }
    }
  }

  lemma EmittingStart(num: nat, lower: nat, upper: nat, den: nat, j: Judging)
    requires BelowNext(num, den, upper, j)
    ensures Emitting(num, lower, upper, den, j, Decimal([]), 0, num, lower, upper)
    ensures Decimal([]) == 0 && AllDigits([])
  {
    assert Pow(10, 0) == 1;
  }

  lemma NormalIsPositive(s: seq<bigit>, e: nat)
    requires Normal(s)
    ensures Val(s, e) > 0
  {
    ValZeroIff(s, e);
  }

  // ---- The generator

  /**
    Makes the precision relative to the leading digit. It fails exactly when a positive exponent carries
    the exact sum past the largest int; a result is never above both the precision and the largest int.
   */
  method AdjustPrecision(precision: int, exp10: int) returns (ok: bool, p: int)
    ensures ok <==> precision + exp10 <= Max(precision, INT_MAX)
    ensures p <= Max(precision, INT_MAX) && p - precision == if ok then exp10 else 0
  {
    if exp10 > 0 && precision > INT_MAX - exp10 {
      return false, precision;
    }
    return true, precision + exp10;
  }

  /**
    data * 10^e lies between v's neighbours' midpoints; it reads back as v with no shorter text doing so
    exactly when the run did not go astray; and no text of its length that reads back is nearer.
   */
  ghost predicate ShortestResult(v: Fp, flags: Flags, exp10: int, data: seq<char>, e: int)
    requires v.f > 0
  {
    var closer := flags.predecessorCloser;
    && |data| > 0 && AllDigits(data)
    && e == FixedUp(v, flags, exp10) - (|data| - 1)
    && InInterval(v, closer, Decimal(data), e)
    && (ShortestText(v, closer, data, e) <==> !Astray(v, flags, exp10))
    && NearestInside(v, closer, Decimal(data), e)
    && (!closer ==> Nearest(ScaledNum(v.f, v.e, e), ScaledDen(v.e, e), Decimal(data)))
  }

  /** data * 10^e is v rounded half to even to a multiple of 10^(x - (n - 1)). */
  predicate DigitsResult(v: Fp, fixed: bool, n: nat, x: int, data: seq<char>, e: int)
  {
    var unit := x - (n - 1);
    && AllDigits(data)
    && unit <= e <= unit + 1
    && RoundsHalfEven(ScaledNum(v.f, v.e, unit), ScaledDen(v.e, unit), TimesPower(Decimal(data), e - unit))
    && |data| == n + (if fixed && Decimal(data) == Pow(10, n) then 1 else 0)
    && (e > unit ==> n > 0 && !fixed && Decimal(data) == Pow(10, n - 1))
  }

  /** The outcome for n digits at exponent x; exp10 is the exponent before the fixup step. */
  predicate RequestedResult(v: Fp, flags: Flags, exp10: int, x: int, n: int, before: seq<char>, data: seq<char>, e: int)
  {
    if n <= 0 then e == x - (n - 1) && data == before + [if OverHalf(v, x + 1) then '1' else '0']
    else if Misread(v, flags.predecessorCloser, exp10) && n > 1 then e == x - (n - 1) && data == MisreadText(n)
    else DigitsResult(v, flags.fixed, n, x, data, e)
  }

  /**
    The outcome for a number of decimal places: always in units of the last one. Where a digit is left
    it is v rounded half to even, with as many digits as lead from 10^x to that place.
   */
  predicate PlacesResult(v: Fp, closer: bool, exp10: int, x: int, places: int, before: seq<char>, data: seq<char>,
                         e: int)
  {
    && e == -places
    && (x < -places ==> data == before + [if OverHalf(v, x + 1) then '1' else '0'])
    && (x >= -places && (x == -places || !Misread(v, closer, exp10)) ==>
        && AllDigits(data)
        && RoundsHalfEven(ScaledNum(v.f, v.e, -places), ScaledDen(v.e, -places), Decimal(data))
        && |data| == x + places + (if Decimal(data) == Pow(10, x + places + 1) then 2 else 1))
    && (x > -places && Misread(v, closer, exp10) ==> data == MisreadText(x + places + 1))
  }

  /** The fixup step: one more decimal digit when the upper end of the interval allows it. */
  method Fixup(v: Fp, closer: bool, x: int, shortest: bool, numerator: Bigint, denominator: Bigint,
               lower: Bigint, upper: Bigint)
    returns (r: int, ghost low: nat, ghost high: nat)
    requires v.f > 0
    requires numerator != denominator && numerator != lower && numerator != upper
    requires denominator != lower && denominator != upper
    requires SetUp(v, closer, x, numerator.V(), denominator.V(), lower.V(), upper.V())
    requires Ready(numerator.bigits, numerator.exp, denominator.bigits, denominator.exp)
    requires Normal(lower.bigits) && Normal(upper.bigits)
    modifies numerator`bigits, lower`bigits, upper`bigits
    ensures r == if UpperEndFits(v, closer, x, 1) then x - 1 else x
    ensures SetUp(v, closer, r, numerator.V(), denominator.V(), low, high)
    ensures Ready(numerator.bigits, numerator.exp, denominator.bigits, denominator.exp)
    ensures Normal(lower.bigits) && Normal(upper.bigits)
    ensures shortest ==> lower.V() == low && upper.V() == high
    ensures Meets(numerator.bigits, numerator.exp, denominator.bigits, denominator.exp) <==>
      old(Meets(numerator.bigits, numerator.exp, denominator.bigits, denominator.exp))
    ensures r < x ==> !old(Meets(numerator.bigits, numerator.exp, denominator.bigits, denominator.exp))
    ensures if r < x
      then numerator.V() == old(numerator.V()) * 10 && high == old(upper.V()) * 10 && low == old(lower.V()) * 10
           && old(numerator.V() + upper.V()) <= denominator.V()
           && (old(numerator.V() + upper.V()) == denominator.V() ==> v.f % 2 == 1)
      else numerator.V() == old(numerator.V()) && high == old(upper.V()) && low == old(lower.V())
  {
    hide Val, Ready, Divisible, SetUp, UpperEndFits;
    low, high := lower.V(), upper.V();
    r := x;
    NormalIsPositive(upper.bigits, upper.exp);
    FixupDecides(v, closer, x, numerator.V(), denominator.V(), low, high, 1);
    ReadyParts(numerator.bigits, numerator.exp, denominator.bigits, denominator.exp);
    var even := if v.f % 2 == 0 then 1 else 0;
    var comparison := AddCompare(numerator, upper, denominator);
    if comparison + even <= 0 {
      SetUpTimesTen(v, closer, x, numerator.V(), denominator.V(), low, high);
      r := x - 1;
      TimesTen(numerator, denominator);
      low, high := low * 10, high * 10;
      if shortest {
        lower.Multiply(10);
        if upper != lower {
          upper.Multiply(10);
        }
      }
    }
  }

  /** No digit wanted: one character, saying whether v is above half of 10^(x + 1). */
  method GenerateNone(numerator: Bigint, denominator: Bigint, buf: CharBuffer)
    requires numerator != denominator
    requires Ready(numerator.bigits, numerator.exp, denominator.bigits, denominator.exp)
    modifies denominator, buf
    ensures buf.data == old(buf.data) + [if old(numerator.V() + numerator.V() > denominator.V() * 10) then '1' else '0']
  {
    hide Val, Ready, Divisible;
    ghost var d := denominator.bigits;
    ReadyParts(numerator.bigits, numerator.exp, d, denominator.exp);
    denominator.Multiply(10);
    AddableAbove(numerator.bigits, numerator.exp, d, denominator.bigits, denominator.exp);
    var comparison := AddCompare(numerator, numerator, denominator);
    buf.PushBack(if comparison > 0 then '1' else '0');
  }

  /**
    The decimal digits of v. With numDigits < 0 they are the shortest that identify v, unless the run
    goes astray; otherwise v rounded to numDigits digits, or to that many decimal places when fixed and
    fixup are set, unless the first division misses a power of ten and more digits follow.
    The last branch, taken when no digit is wanted, compares v with half of 10^(exponent + 1).
   */
  method FormatDragon(v: Fp, flags: Flags, numDigits: int, buf: CharBuffer, exp10: int) returns (ok: bool, e: int)
    requires InRange(v, flags.predecessorCloser, exp10)
    requires ExponentFits(v, flags, numDigits, exp10)
    modifies buf
    ensures ok <==>
      (flags.fixup && flags.fixed ==> numDigits + FixedUp(v, flags, exp10) + 1 <= Max(numDigits, INT_MAX))
    ensures !ok ==> buf.data == old(buf.data)
    ensures ok && numDigits < 0 ==> ShortestResult(v, flags, exp10, buf.data, e)
    ensures ok && numDigits >= 0 && flags.fixup && flags.fixed ==>
      PlacesResult(v, flags.predecessorCloser, exp10, FixedUp(v, flags, exp10), numDigits, old(buf.data), buf.data, e)
    ensures ok && numDigits >= 0 && !(flags.fixup && flags.fixed) ==>
      RequestedResult(v, flags, exp10, FixedUp(v, flags, exp10), numDigits, old(buf.data), buf.data, e)
  {
    hide Val, Ready, Divisible, Meets, SetUp, IsPowerOfTwo, InRange, Misread, Settled, Decimal, Pow, RoundsHalfEven,
         UpperEndFits, ScaledNum, ScaledDen, ShortestResult, RequestedResult, PlacesResult, IsDenExp, NumExp, LowerExp,
         Normal, ExponentFits;
    var closer := flags.predecessorCloser;
    var numerator := new Bigint();
    var denominator := new Bigint();
    var lower := new Bigint();
    var upperStore := new Bigint();
    RangeMeans(v, closer, exp10);
    LargeNeedsExponent(v, flags, numDigits, exp10);
    var upper := Start(v, closer, exp10, numerator, denominator, lower, upperStore);
    var even := if v.f % 2 == 0 then 1 else 0;
    var shortest := numDigits < 0;
    var precision, x := numDigits, exp10;
    ghost var low, high := lower.V(), upper.V();
    FitsMeans(v, flags, numDigits, x, numerator.V(), denominator.V(), low, high);
    if flags.fixup {
      x, low, high := Fixup(v, closer, x, shortest, numerator, denominator, lower, upper);
      if flags.fixed {
        ok, precision := AdjustPrecision(precision, x + 1);
        if !ok {
          e := x;
          return;
        }
      }
    }
    ok := true;
    if shortest {
      e := Shortest(v, flags, x, exp10, numDigits, numerator, denominator, lower, upper, even, buf);
      return;
    }
    ghost var before := buf.data;
    e := Requested(v, flags, exp10, x, precision, numerator, denominator, low, high, buf);
    if flags.fixup && flags.fixed {
      PlacesMeans(v, flags, exp10, x, numDigits, before, buf.data, e);
    }
  }

  /** A precision counted from the leading digit, as decimal places. */
  lemma PlacesMeans(v: Fp, flags: Flags, exp10: int, x: int, places: int, before: seq<char>, data: seq<char>, e: int)
    requires flags.fixed && RequestedResult(v, flags, exp10, x, places + (x + 1), before, data, e)
    ensures PlacesResult(v, flags.predecessorCloser, exp10, x, places, before, data, e)
  {
    hide Misread, Pow, RoundsHalfEven, ScaledNum, ScaledDen, OverHalf;
    if x >= -places && (x == -places || !Misread(v, flags.predecessorCloser, exp10)) {
      TimesOne(Decimal(data));
    }
  }

  lemma TimesOne(n: nat)
    ensures TimesPower(n, 0) == n
  {}

  lemma RangeMeans(v: Fp, closer: bool, x: int)
    requires InRange(v, closer, x)
    ensures v.f > 0 && (closer && v.f % 2 == 1 ==> v.f == 1)
    ensures closer ==> IsShortPower(v.f)
  {
    if closer {
      var k: nat :| k < v.f && v.f == Pow(2, k);
      assert v.f == if k == 0 then 1 else 2 * Pow(2, k - 1);
      Pow2Of128();
      if k >= 128 {
        PowMonotonic(2, 128, k);
      }
    }
  }

  method Shortest(v: Fp, flags: Flags, x: int, exp10: int, ghost numDigits: int, numerator: Bigint,
                  denominator: Bigint, lower: Bigint, upper: Bigint, even: nat, buf: CharBuffer)
    returns (e: int)
    requires numerator != denominator && numerator != lower && numerator != upper
    requires denominator != lower && denominator != upper
    requires even == (if v.f % 2 == 0 then 1 else 0) && numDigits < 0 && x == FixedUp(v, flags, exp10)
    requires v.f > 0 && InRange(v, flags.predecessorCloser, exp10)
    requires ExponentFits(v, flags, numDigits, exp10)
    requires SetUp(v, flags.predecessorCloser, x, numerator.V(), denominator.V(), lower.V(), upper.V())
    requires Ready(numerator.bigits, numerator.exp, denominator.bigits, denominator.exp)
    requires Meets(numerator.bigits, numerator.exp, denominator.bigits, denominator.exp) <==>
      Misread(v, flags.predecessorCloser, exp10)
    requires Normal(lower.bigits) && Normal(upper.bigits)
    requires numerator.V() + upper.V() <= 10 * denominator.V()
    requires numerator.V() + upper.V() == 10 * denominator.V() ==> v.f % 2 == 1
    requires numerator.exp == NumExp(v, flags.predecessorCloser, exp10) && lower.exp == LowerExp(v, exp10)
    requires IsDenExp(v, flags.predecessorCloser, exp10, denominator.exp)
    requires v.e >= 0 ==> lower.V() == Pow(2, v.e) * if x < exp10 then 10 else 1
    requires Misread(v, flags.predecessorCloser, exp10) ==> x == exp10
    modifies numerator, lower, upper, buf
    ensures ShortestResult(v, flags, exp10, buf.data, e)
  {
    hide Val, Ready, Divisible, Meets, SetUp, Settled, Decimal, Pow, Judges, BelowNext, ExponentFits, IsDenExp,
         InRange, Misread, FixedUp, ShortestResult, NumExp, LowerExp;
    ghost var s := Span(numerator.V(), lower.V(), upper.V(), denominator.V());
    ghost var j := JudgingOf(v, flags, exp10);
    ghost var le := lower.exp;
    LargeNeedsExponent(v, flags, numDigits, exp10);
    JudgingHolds(v, flags, numDigits, exp10, x, s, numerator.exp, denominator.exp, le);
    ghost var end;
    e, end := GenerateShortest(numerator, denominator, lower, upper, even, buf, x, j);
    SettledMeans(v, flags, exp10, s, end, buf.data);
  }

  function JudgingOf(v: Fp, flags: Flags, exp10: int): Judging
  {
    Judging(ExponentOrder(v, flags.predecessorCloser, exp10), ZeroHidden(v, flags, exp10), v.f % 2 == 0)
  }

  lemma JudgingHolds(v: Fp, flags: Flags, numDigits: int, exp10: int, x: int, s: Span, ne: nat, de: nat, le: nat)
    requires numDigits < 0 && x == FixedUp(v, flags, exp10) && Starts(v, flags.predecessorCloser, x, s)
    requires ExponentFits(v, flags, numDigits, exp10)
    requires ne == NumExp(v, flags.predecessorCloser, exp10) && le == LowerExp(v, exp10)
    requires IsDenExp(v, flags.predecessorCloser, exp10, de)
    requires v.e >= 0 ==> s.lower == Pow(2, v.e) * if x < exp10 then 10 else 1
    requires s.total + s.upper <= 10 * s.den && (s.total + s.upper == 10 * s.den ==> v.f % 2 == 1)
    requires Misread(v, flags.predecessorCloser, exp10) ==> x == exp10
    ensures var j := JudgingOf(v, flags, exp10);
      && Judges(j, s.total, ne, de, s.lower, le)
      && BelowNext(s.total, s.den, s.upper, j)
      && (j.hidden || Misread(v, flags.predecessorCloser, exp10) ==> s.lower <= s.upper < s.den)
      && (Misread(v, flags.predecessorCloser, exp10) ==> !j.hidden)
  {
    var closer := flags.predecessorCloser;
    OrderMeans(v, flags, numDigits, exp10, de);
    assert s.lower < s.total && s.lower <= s.upper by {
      MulMonotonic(2, Fine(closer) * v.f, s.lower);
      MulMonotonic(1, UpperUnits(closer), s.lower);
    }
    hide Pow, Weight, ExponentFits, IsDenExp, UpperEndFits, SetUp;
    if x == exp10 && 0 <= v.e <= exp10 {
      UpperIsSmall(v, closer, x, s);
    }
  }

  /** From the units of the run to the number itself. */
  lemma SettledMeans(v: Fp, flags: Flags, exp10: int, s: Span, end: End, data: seq<char>)
    requires v.f > 0 && InRange(v, flags.predecessorCloser, exp10)
    requires Starts(v, flags.predecessorCloser, FixedUp(v, flags, exp10), s)
    requires ZeroHidden(v, flags, exp10) ==> s.upper < s.den
    requires |data| > 0 && AllDigits(data) && end.n == |data| - 1 && (v.e >= 0 ==> exp10 >= 0)
    requires Settled(s.total, s.lower, s.upper, s.den, JudgingOf(v, flags, exp10), end, Decimal(data))
    ensures ShortestResult(v, flags, exp10, data, FixedUp(v, flags, exp10) - (|data| - 1))
  {
    hide InRange, IsShortPower, Settled, Starts, Sound, AtScale, FixedUp, Astray, Spoiled, Within, OnlyLow, Misjudged,
         NoneInside, Inside, InInterval, Decimal, IsShortest, NearestInside, NearestWithin, LowEndMissed, ExponentOrder,
         ZeroHidden, ScaledNum, ScaledDen, Nearest;
    RangeMeans(v, flags.predecessorCloser, exp10);
    var closer, x, n, result := flags.predecessorCloser, FixedUp(v, flags, exp10), end.n, Decimal(data);
    var j := JudgingOf(v, flags, exp10);
    RunIsSound(v, flags, exp10, s, end, result);
    ShortestIff(s, j, end, result);
    SpoiledIsAstray(v, flags, exp10, s, j);
    ShortestIsText(v, closer, x, s, n, result);
    ResultWithin(s, j, end, result);
    WithinIsInside(v, closer, x, s, n, result);
    NearestIff(s, j, end, result);
    NearestIsInside(v, closer, x, s, n, result);
    NothingNearerMissed(v, flags, exp10, x, s, j, end, result);
    if !closer {
      NearestMeans(v, x, s, n, result);
    }
  }

  lemma NearestMeans(v: Fp, x: int, s: Span, n: nat, result: nat)
    requires Starts(v, false, x, s) && Nearest(AtScale(s, n).total, AtScale(s, n).den, result)
    ensures Nearest(ScaledNum(v.f, v.e, x - n), ScaledDen(v.e, x - n), result)
  {
    SetUpRepresents(v, false, x, s.total, s.den, s.lower, s.upper);
    RepresentsShift(s.total, s.den, v.f, v.e, x, n);
    NearestScale(s.total * Pow(10, n), s.den, ScaledNum(v.f, v.e, x - n), ScaledDen(v.e, x - n), result);
  }

  lemma RunIsSound(v: Fp, flags: Flags, exp10: int, s: Span, end: End, result: nat)
    requires v.f > 0 && InRange(v, flags.predecessorCloser, exp10)
    requires Starts(v, flags.predecessorCloser, FixedUp(v, flags, exp10), s)
    requires ZeroHidden(v, flags, exp10) ==> s.upper < s.den
    requires Settled(s.total, s.lower, s.upper, s.den, JudgingOf(v, flags, exp10), end, result)
    ensures Sound(s, JudgingOf(v, flags, exp10), end)
    ensures s.upper == UpperUnits(flags.predecessorCloser) * s.lower
  {
    RangeMeans(v, flags.predecessorCloser, exp10);
    if flags.predecessorCloser && v.f % 2 == 1 {
      PowPositive(10, end.n);
      MulPositive(s.lower, Pow(10, end.n));
      if end.rest > 0 {
        OddTieIsNotCloser(v, FixedUp(v, flags, exp10), s, end.n, end.m, end.rest);
      }
    }
  }

  method Requested(v: Fp, flags: Flags, ghost exp10: int, x: int, precision: int, numerator: Bigint,
                   denominator: Bigint, ghost low: nat, ghost high: nat, buf: CharBuffer)
    returns (e: int)
    requires numerator != denominator
    requires SetUp(v, flags.predecessorCloser, x, numerator.V(), denominator.V(), low, high)
    requires Ready(numerator.bigits, numerator.exp, denominator.bigits, denominator.exp)
    requires numerator.V() < 10 * denominator.V()
    requires Meets(numerator.bigits, numerator.exp, denominator.bigits, denominator.exp) <==>
      Misread(v, flags.predecessorCloser, exp10)
    modifies numerator, denominator, buf
    ensures RequestedResult(v, flags, exp10, x, precision, old(buf.data), buf.data, e)
  {
    hide Val, Ready, Meets, SetUp, Misread, OverHalf, DigitsResult, MisreadText;
    e := x - (precision - 1);
    if precision <= 0 {
      HalfMeans(v, flags.predecessorCloser, x, numerator.V(), denominator.V(), low, high);
      GenerateNone(numerator, denominator, buf);
      return;
    }
    e := Digits(v, flags.predecessorCloser, flags.fixed, x, precision, numerator, denominator, low, high, buf);
  }

  method Digits(v: Fp, closer: bool, fixed: bool, x: int, precision: nat, numerator: Bigint, denominator: Bigint,
                ghost low: nat, ghost high: nat, buf: CharBuffer)
    returns (e: int)
    requires numerator != denominator && precision > 0
    requires SetUp(v, closer, x, numerator.V(), denominator.V(), low, high)
    requires Ready(numerator.bigits, numerator.exp, denominator.bigits, denominator.exp)
    requires numerator.V() < 10 * denominator.V()
    modifies numerator, buf
    ensures if old(Meets(numerator.bigits, numerator.exp, denominator.bigits, denominator.exp)) && precision > 1
      then e == x - (precision - 1) && buf.data == MisreadText(precision)
      else DigitsResult(v, fixed, precision, x, buf.data, e)
  {
    hide Val, Ready, Meets, SetUp, Decimal, Pow, RoundsHalfEven, ScaledNum, ScaledDen, TimesPower, MisreadText;
    ghost var num0, den := numerator.V(), denominator.V();
    ghost var misread := Meets(numerator.bigits, numerator.exp, denominator.bigits, denominator.exp);
    var unit := x - (precision - 1);
    e := GenerateDigits(numerator, denominator, precision, fixed, buf, unit);
    if !(misread && precision > 1) {
      RoundedMeans(v, closer, x, num0, den, low, high, precision - 1, TimesPower(Decimal(buf.data), e - unit));
    }
  }
}
