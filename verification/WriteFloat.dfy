/** Laying out a decimal significand and exponent as text, and what number the text denotes. */
module WriteFloat {
  import opened Arith
  import opened Decimals
  import opened DigitGrouping
  import opened IntegerText
  import opened Subsegment
  import opened Texts

  datatype Format = General | Exponent | Fixed

  /** sign is one character or none; the separator, if any, is a single character. */
  datatype FloatSpecs = FloatSpecs(precision: int, format: Format, sign: string, upper: bool, showpoint: bool,
                                   decimalPoint: char, grouping: Grouping)

  predicate Acceptable(fspecs: FloatSpecs)
  {
    && |fspecs.sign| <= 1 && Usable(fspecs.grouping) && |fspecs.grouping.separator| <= 1
    && !IsDigit(fspecs.decimalPoint) && fspecs.decimalPoint != 'e' && fspecs.decimalPoint != 'E'
  }

  // ---- The number a text denotes

  /** mantissa * 10^exponent. */
  datatype Reading = Reading(mantissa: nat, exponent: int)

  /** Reads digits, then perhaps a point and more digits, then perhaps an exponent; separators must be gone. */
  function ReadNumber(t: string, point: char): Reading
  {
    var i := DigitsEnd(t, 0);
    var pointed := i < |t| && t[i] == point;
    var j := if pointed then DigitsEnd(t, i + 1) else i;
    var fraction := if pointed then t[i + 1..j] else "";
    Reading(Decimal(t[..i] + fraction), ReadExponent(t[j..]) - |fraction|)
  }

  function ReadExponent(t: string): int
  {
    if |t| >= 2 && (t[0] == 'e' || t[0] == 'E') then
      var n: int := Decimal(t[2..]);
      if t[1] == '-' then -n else n
    else 0
  }

  /** The layout: digits before the point, whether there is a point, digits behind it, and an exponent or not. */
  datatype Shape = Shape(integral: nat, pointed: bool, fraction: nat, scientific: bool)

  function ReadShape(t: string, point: char): Shape
  {
    var i := DigitsEnd(t, 0);
    var pointed := i < |t| && t[i] == point;
    var j := if pointed then DigitsEnd(t, i + 1) else i;
    Shape(i, pointed, if pointed then j - i - 1 else 0, j < |t|)
  }

  /** The reading is the same number as n * 10^e. */
  predicate Denotes(r: Reading, n: nat, e: int)
  {
    if r.exponent <= e then r.mantissa == n * Pow(10, e - r.exponent)
    else r.mantissa * Pow(10, r.exponent - e) == n
  }

  function Zeros(k: nat): (s: string)
    ensures |s| == k && AllDigits(s) && forall i | 0 <= i < k :: s[i] == '0'
  {
    seq(k, _ => '0')
  }

  lemma {:induction false} DecimalTrailing(s: string, k: nat)
    ensures Decimal(s + Zeros(k)) == Decimal(s) * Pow(10, k)
  {
    DecimalConcat(s, Zeros(k));
    DecimalZeros(Zeros(k));
  }

  lemma DecimalLeadingZeros(k: nat, s: string)
    ensures Decimal(Zeros(k) + s) == Decimal(s)
  {
    DecimalConcat(Zeros(k), s);
    DecimalZeros(Zeros(k));
  }

  /** How a text that is laid out in these parts is read. */
  lemma ReadsAs(whole: string, point: char, fraction: string, exponent: string)
    requires AllDigits(whole) && AllDigits(fraction) && !IsDigit(point) && point != 'e' && point != 'E'
    requires exponent == "" || exponent[0] == 'e' || exponent[0] == 'E'
    ensures ReadNumber(whole + [point] + fraction + exponent, point)
         == Reading(Decimal(whole + fraction), ReadExponent(exponent) - |fraction|)
    ensures ReadNumber(whole + exponent, point) == Reading(Decimal(whole), ReadExponent(exponent))
    ensures ReadShape(whole + [point] + fraction + exponent, point) == Shape(|whole|, true, |fraction|, exponent != "")
    ensures ReadShape(whole + exponent, point) == Shape(|whole|, false, 0, exponent != "")
  {
    hide Decimal, ReadExponent;
    var t := whole + [point] + fraction + exponent;
    var i := |whole|;
    var j := i + 1 + |fraction|;
    assert t[0..i] == whole && t[i + 1..j] == fraction && t[j..] == exponent;
    DigitsEndAt(t, 0, i);
    DigitsEndAt(t, i + 1, j);
    var u := whole + exponent;
    assert u[0..i] == whole && u[i..] == exponent;
    DigitsEndAt(u, 0, i);
    assert whole + "" == whole;
  }
  // ---- The pieces

  function ExponentDigits(exp: int): (n: nat)
    ensures 2 <= n <= 4
  {
    var a := if exp >= 0 then exp else -exp;
    if a >= 1000 then 4 else if a >= 100 then 3 else 2
  }

  method WriteExponent(exp: int) returns (t: string)
    requires -10000 < exp < 10000
    ensures |t| == 1 + ExponentDigits(exp) && AllDigits(t[1..])
    ensures t[0] == (if exp < 0 then '-' else '+') && Decimal(t[1..]) == if exp < 0 then -exp else exp
  {
    hide Decimal, AllDigits;
    var e := exp;
    if e < 0 {
      t := "-";
      e := -e;
    } else {
      t := "+";
    }
    ghost var sign, a := t, e;
    ghost var top2 := Digits2(e / 100);
    if e >= 100 {
      var top := Digits2(e / 100);
      if e >= 1000 {
        t := t + [top[0]];
      }
      t := t + [top[1]];
      e := e % 100;
    }
    ghost var written := if a >= 1000 then top2 else if a >= 100 then [top2[1]] else "";
    assert t == sign + written;
    var d := Digits2(e);
    t := t + [d[0]];
    t := t + [d[1]];
    ExponentDenotes(a);
    assert t == sign + (written + d);
    assert t[1..] == written + d == ExponentText(a);
  }

  function ExponentText(a: nat): string
    requires a < 10000
  {
    (if a >= 1000 then Digits2(a / 100) else if a >= 100 then [Digits2(a / 100)[1]] else "") + Digits2(a % 100)
  }

  lemma ExponentDenotes(a: nat)
    requires a < 10000
    ensures AllDigits(ExponentText(a)) && Decimal(ExponentText(a)) == a
  {
    TwoDigits("", a % 100);
    if a >= 1000 {
      TwoDigits("", a / 100);
      TwoDigits(Digits2(a / 100), a % 100);
    } else if a >= 100 {
      var h := [Digits2(a / 100)[1]];
      DecimalSnoc("", h[0]);
      assert "" + h == h;
      TwoDigits(h, a % 100);
    }
    assert "" + Digits2(a % 100) == Digits2(a % 100);
    assert "" + Digits2(a / 100 % 100) == Digits2(a / 100 % 100);
  }

  lemma TwoDigits(s: string, d: nat)
    requires d < 100
    ensures Decimal(s + Digits2(d)) == 100 * Decimal(s) + d && AllDigits(Digits2(d))
  {
    var t := Digits2(d);
    DecimalSnoc(s, t[0]);
    DecimalSnoc(s + [t[0]], t[1]);
    assert (s + [t[0]]) + [t[1]] == s + t;
  }

  /** Digits with a point after the first integralSize of them. */
  function Pointed(digits: string, integralSize: nat, point: char): string
    requires integralSize <= |digits|
  {
    digits[..integralSize] + [point] + digits[integralSize..]
  }

  /** Writes an integer's digits, two at a time from the right, and a point in between. */
  method WriteSignificand(out: array<char>, at: nat, significand: nat, significandSize: nat, integralSize: nat,
                          point: char)
    returns (end: nat)
    requires significandSize == DigitCount(significand) && 1 <= integralSize <= significandSize
    requires at + significandSize + 1 <= out.Length
    modifies out
    ensures end == at + significandSize + 1
    ensures out[..] == Replaced(old(out[..]), at, Pointed(Numeral(significand), integralSize, point))
  {
    hide Replaced, Numeral, DigitCount;
    ghost var before, text: seq<char> := out[..], [];
    var v := significand;
    end := at + significandSize + 1;
    var p := end;
    var floatingSize := significandSize - integralSize;
    ReplacedStart(before, p);
    assert Numeral(significand) + [] == Numeral(significand);
    for i := 0 to floatingSize / 2
      invariant |text| == 2 * i && p == end - |text| && Numeral(significand) == Numeral(v) + text
      invariant out.Length == |before| && out[..] == Replaced(before, p, text)
    {
      ManyDigits(v);
      NumeralPair(v);
      p := p - 2;
      Copy2(out, p, Digits2(v % 100));
      PairBefore(before, p, Digits2(v % 100), text);
      text := Digits2(v % 100) + text;
      v := v / 100;
    }
    if floatingSize % 2 != 0 {
      ManyDigits(v);
      NumeralLast(v);
      p := p - 1;
      out[p] := DigitChar(v % 10);
      OneBefore(before, p, DigitChar(v % 10), text);
      text := [DigitChar(v % 10)] + text;
      v := v / 10;
    }
    p := p - 1;
    out[p] := point;
    OneBefore(before, p, point, text);
    assert Numeral(significand)[..integralSize] == Numeral(v) && Numeral(significand)[integralSize..] == text;
    assert |Numeral(v)| == integralSize;
    var b, e := FormatDecimal(out, p - integralSize, v, integralSize);
    ReplacedBefore(before, at, Numeral(v), [point] + text);
    assert Numeral(v) + ([point] + text) == Pointed(Numeral(significand), integralSize, point);
  }

  lemma ManyDigits(v: nat)
    ensures |Numeral(v)| >= 2 ==> v >= 10
    ensures |Numeral(v)| >= 3 ==> v >= 100
  {
    if 10 <= v < 100 {
      assert DigitCount(v) == 1 + DigitCount(v / 10);
    }
  }

  lemma NumeralLast(v: nat)
    requires v >= 10
    ensures Numeral(v) == Numeral(v / 10) + [DigitChar(v % 10)] && |Numeral(v)| == |Numeral(v / 10)| + 1
  {}

  lemma ReplacedBefore(s: string, at: nat, t: string, text: string)
    requires at + |t| + |text| <= |s|
    ensures |Replaced(s, at + |t|, text)| == |s|
    ensures Replaced(Replaced(s, at + |t|, text), at, t) == Replaced(s, at, t + text)
  {}

  // ---- Exponents in the text

  /** n * 10^e is below 10^k. */
  predicate Below(n: nat, e: int, k: int)
  {
    n * Pow(10, Pos(e - k)) < Pow(10, Pos(k - e))
  }

  /** A letter, a sign and at least two digits at the end. */
  predicate ShowsExponent(text: string, letter: char)
  {
    exists i :: 0 <= i < |text| - 3 && text[i] == letter && text[i + 1] in {'+', '-'} && AllDigits(text[i + 2..])
  }

  /** Neither the sign nor the separator could be taken for the letter of an exponent. */
  predicate LetterFree(fspecs: FloatSpecs)
  {
    forall c | c in fspecs.sign + fspecs.grouping.separator :: c != 'e' && c != 'E'
  }

  /** An exponent with the letter asked for and no other letter, or none at all. */
  predicate ExponentShown(fspecs: FloatSpecs, text: string, shown: bool)
  {
    if shown then
      && ShowsExponent(text, if fspecs.upper then 'E' else 'e')
      && (if fspecs.upper then 'e' else 'E') !in text
    else 'e' !in text && 'E' !in text
  }

  /** Which numbers have fewer than a given number of digits in front of the point. */
  lemma BelowByDigits(digits: string, e: int, k: int)
    requires AllDigits(digits) && digits != "" && digits[0] != '0'
    ensures Below(Decimal(digits), e, k) <==> e + |digits| <= k
  {
    var d := |digits|;
    DecimalBound(digits);
    LeadingBound(digits);
    assert Pow(10, 0) == 1;
    hide Pow, Decimal;
    var n := Decimal(digits);
    if e > k {
      PowPositive(10, e - k);
      PowPositive(10, d - 1);
      MulMonotonic(1, n, Pow(10, e - k));
    } else if e + d <= k {
      PowMonotonic(10, d, k - e);
    } else {
      PowMonotonic(10, k - e, d - 1);
    }
  }

  lemma LeadingBound(digits: string)
    requires AllDigits(digits) && digits != "" && digits[0] != '0'
    ensures Decimal(digits) >= Pow(10, |digits| - 1)
  {
    var d := |digits|;
    assert digits == digits[..1] + digits[1..];
    DecimalConcat(digits[..1], digits[1..]);
    assert digits[..1] == [] + [digits[0]];
    DecimalSnoc([], digits[0]);
    PowPositive(10, d - 1);
    MulMonotonic(1, DigitOf(digits[0]), Pow(10, d - 1));
  }

  // ---- The layouts

  /** The text is the sign and plain with its integral digits grouped; plain has the shape and denotes the number. */
  ghost predicate LaidAs(fspecs: FloatSpecs, digits: string, exponent: int, shape: Shape, text: string, plain: string)
    requires Acceptable(fspecs)
  {
    var n := shape.integral;
    && n <= |plain| && n <= INT_MAX
    && text == fspecs.sign + Grouped(plain[..n], 0, Positions(fspecs.grouping, INITIAL, n), fspecs.grouping.separator)
               + plain[n..]
    && ReadShape(plain, fspecs.decimalPoint) == shape
    && Denotes(ReadNumber(plain, fspecs.decimalPoint), Decimal(digits), exponent)
  }

  /** Apart from the sign and the separators the text has the given shape and denotes digits * 10^exponent. */
  ghost predicate Laid(fspecs: FloatSpecs, digits: string, exponent: int, shape: Shape, text: string)
    requires Acceptable(fspecs)
  {
    exists plain :: LaidAs(fspecs, digits, exponent, shape, text, plain)
  }

  predicate UseExpFormat(fspecs: FloatSpecs, outputExp: int)
  {
    match fspecs.format
    case Exponent => true
    case Fixed => false
    case General => outputExp < -4 || outputExp >= if fspecs.precision > 0 then fspecs.precision else 16
  }

  /** One digit in front of the point; zeros are added up to the precision if the point must show. */
  function ScientificShape(digits: string, fspecs: FloatSpecs): Shape
    requires digits != ""
  {
    Shape(1, |digits| > 1 || fspecs.showpoint,
          |digits| - 1 + if fspecs.showpoint then Pos(fspecs.precision - |digits|) else 0, true)
  }

  /** As many digits in front of the point as the number has; zeros are added up to the precision likewise. */
  function PositionalShape(digits: string, exponent: int, fspecs: FloatSpecs): Shape
  {
    var exp := exponent + |digits|;
    if exponent >= 0 then
      Shape(exp, fspecs.showpoint, if fspecs.showpoint then Pos(fspecs.precision - exp) else 0, false)
    else if exp > 0 then
      Shape(exp, true, -exponent + if fspecs.showpoint then Pos(fspecs.precision - |digits|) else 0, false)
    else
      var zeros := if digits == "" && fspecs.precision >= 0 then Min(-exp, fspecs.precision) else -exp;
      Shape(1, zeros + |digits| > 0 || fspecs.showpoint, zeros + |digits|, false)
  }

  /**
    How many digits the layouts have: no zero in front of the first digit but a lone one, and behind the
    last digit only those needed for the value, or as many digits in all as the precision when the point
    must show.
   */
  lemma LayoutDigits(digits: string, exponent: int, fspecs: FloatSpecs)
    requires AllDigits(digits) && digits != "" && digits[0] != '0'
    ensures var shape := ScientificShape(digits, fspecs);
      && shape.integral == 1 && shape.scientific && (shape.pointed <==> shape.fraction > 0 || fspecs.showpoint)
      && 1 + shape.fraction == if fspecs.showpoint then Max(|digits|, fspecs.precision) else |digits|
    ensures var shape := PositionalShape(digits, exponent, fspecs);
      && !shape.scientific && (shape.pointed <==> shape.fraction > 0 || fspecs.showpoint)
      && shape.integral >= 1 && Below(Decimal(digits), exponent, shape.integral)
      && (shape.integral > 1 ==> !Below(Decimal(digits), exponent, shape.integral - 1))
      && (if fspecs.showpoint && !Below(Decimal(digits), exponent, 0) then
            shape.integral + shape.fraction == Max(shape.integral + Neg(exponent), fspecs.precision)
          else shape.fraction == Neg(exponent))
  {
    hide Below, Decimal;
    var k := PositionalShape(digits, exponent, fspecs).integral;
    BelowByDigits(digits, exponent, k);
    BelowByDigits(digits, exponent, k - 1);
    BelowByDigits(digits, exponent, 0);
  }

  /**
    When the text has an exponent, by the number: always or never in two formats; in the general one for
    numbers below 10^-4, or of at least 10^16 or 10 to the precision.
   */
  predicate WantsExponent(fspecs: FloatSpecs, n: nat, e: int)
  {
    match fspecs.format
    case Exponent => true
    case Fixed => false
    case General => Below(n, e, -4) || !Below(n, e, if fspecs.precision > 0 then fspecs.precision else 16)
  }

  lemma ExpFormatByNumber(digits: string, e: int, fspecs: FloatSpecs)
    requires AllDigits(digits) && (fspecs.format == General ==> digits != "" && digits[0] != '0')
    ensures UseExpFormat(fspecs, e + |digits| - 1) <==> WantsExponent(fspecs, Decimal(digits), e)
  {
    hide Below;
    if fspecs.format == General {
      BelowByDigits(digits, e, -4);
      BelowByDigits(digits, e, if fspecs.precision > 0 then fspecs.precision else 16);
    }
  }

  /** In a layout without an exponent no letter can occur. */
  lemma NoLetters(fspecs: FloatSpecs, digits: string, exponent: int, shape: Shape, text: string)
    requires Acceptable(fspecs) && LetterFree(fspecs)
    requires Laid(fspecs, digits, exponent, shape, text) && !shape.scientific
    ensures ExponentShown(fspecs, text, false)
  {
    hide Denotes, ReadNumber, Positions, Grouped, ReadShape;
    var plain :| LaidAs(fspecs, digits, exponent, shape, text, plain);
    var n := shape.integral;
    var ps := Positions(fspecs.grouping, INITIAL, n);
    PlainLetters(plain, fspecs.decimalPoint);
    GroupedLetters(plain[..n], 0, ps, fspecs.grouping.separator);
    forall c | c in text
      ensures c != 'e' && c != 'E'
    {
      if c in fspecs.sign || c in fspecs.grouping.separator {
        assert c in fspecs.sign + fspecs.grouping.separator;
      } else {
        assert c in plain[..n] || c in plain[n..];
        assert c in plain;
      }
    }
  }

  lemma {:induction false} GroupedLetters(digits: string, i: nat, ps: seq<int>, separator: string)
    requires i <= |digits|
    ensures forall c | c in Grouped(digits, i, ps, separator) :: c in digits || c in separator
    decreases |digits| - i
  {
    if i < |digits| {
      GroupedLetters(digits, i + 1, ps, separator);
    }
  }

  lemma PlainLetters(t: string, point: char)
    requires !ReadShape(t, point).scientific && point != 'e' && point != 'E'
    ensures 'e' !in t && 'E' !in t
  {
    DigitsToEnd(t, 0);
    var i := DigitsEnd(t, 0);
    if i < |t| && t[i] == point {
      DigitsToEnd(t, i + 1);
    }
    forall c | c in t
      ensures c != 'e' && c != 'E'
    {
      var k :| 0 <= k < |t| && t[k] == c;
    }
  }

  lemma {:induction false} DigitsToEnd(t: string, i: nat)
    requires i <= |t|
    ensures forall k | i <= k < DigitsEnd(t, i) :: IsDigit(t[k])
    decreases |t| - i
  {
    if i < |t| && IsDigit(t[i]) {
      DigitsToEnd(t, i + 1);
    }
  }

  /**
    Writes digits * 10^exponent in the layout the specifications and the exponent call for; size is
    reckoned before anything is written.
   */
  method DoWriteFloat(digits: string, exponent: int, fspecs: FloatSpecs)
    returns (text: string, size: nat)
    requires AllDigits(digits) && Acceptable(fspecs) && (digits != "" || fspecs.format == Fixed)
    requires -10000 < exponent + |digits| - 1 < 10000
    ensures var shape := if UseExpFormat(fspecs, exponent + |digits| - 1) then ScientificShape(digits, fspecs)
                         else PositionalShape(digits, exponent, fspecs);
      Laid(fspecs, digits, exponent, shape, text)
    ensures LetterFree(fspecs) && (fspecs.format == General ==> digits[0] != '0') ==>
      ExponentShown(fspecs, text, WantsExponent(fspecs, Decimal(digits), exponent))
    ensures LetterFree(fspecs) && fspecs.format == General && digits == "0" && exponent == 0 ==>
      ExponentShown(fspecs, text, false)
    ensures size == |text|
  {
    hide Laid, LetterFree, ExponentShown, WantsExponent, Decimal, AllDigits;
    if fspecs.format == General ==> digits[0] != '0' {
      ExpFormatByNumber(digits, exponent, fspecs);
    }
    var outputExp := exponent + |digits| - 1;
    if UseExpFormat(fspecs, outputExp) {
      text, size := WriteScientific(digits, exponent, fspecs);
    } else if exponent >= 0 {
      text, size := WriteWhole(digits, exponent, fspecs);
    } else if exponent + |digits| > 0 {
      text, size := WriteMixed(digits, exponent, fspecs);
    } else {
      text, size := WriteFraction(digits, exponent, fspecs);
    }
    if LetterFree(fspecs) && !UseExpFormat(fspecs, outputExp) {
      NoLetters(fspecs, digits, exponent, PositionalShape(digits, exponent, fspecs), text);
    }
  }

  /** 1234e5 -> 1.234e+08 */
  method WriteScientific(digits: string, exponent: int, fspecs: FloatSpecs)
    returns (text: string, size: nat)
    requires AllDigits(digits) && digits != "" && Acceptable(fspecs)
    requires -10000 < exponent + |digits| - 1 < 10000
    ensures Laid(fspecs, digits, exponent, ScientificShape(digits, fspecs), text) && size == |text|
    ensures LetterFree(fspecs) ==> ExponentShown(fspecs, text, true)
  {
    hide Decimal, ReadNumber, ReadShape, Denotes, Laid, ReadExponent, ExponentDigits, ExponentShown, LetterFree;
    var outputExp := exponent + |digits| - 1;
    size := |digits| + |fspecs.sign|;
    var pointed, numZeros: nat := true, 0;
    if fspecs.showpoint {
      numZeros := Pos(fspecs.precision - |digits|);
      size := size + numZeros;
    } else if |digits| == 1 {
      pointed := false;
    }
    size := size + (if pointed then 1 else 0) + 2 + ExponentDigits(outputExp);
    var expText := WriteExponent(outputExp);
    var mantissa := if pointed then Pointed(digits, 1, fspecs.decimalPoint) else digits;
    var e := [if fspecs.upper then 'E' else 'e'] + expText;
    text := fspecs.sign + mantissa + Zeros(numZeros) + e;
    ghost var rest := mantissa + Zeros(numZeros) + e;
    assert text == fspecs.sign + rest;
    assert text == fspecs.sign + (mantissa + Zeros(numZeros)) + e;
    MantissaChars(digits, fspecs.decimalPoint, pointed, numZeros);
    LetterShown(fspecs, mantissa + Zeros(numZeros), expText);
    ExponentReads(expText, outputExp, fspecs.upper);
    ScientificReads(digits, fspecs.decimalPoint, pointed, numZeros, e, exponent);
    LaidUngrouped(fspecs, digits, exponent, ScientificShape(digits, fspecs), text, rest);
  }

  lemma MantissaChars(digits: string, point: char, pointed: bool, zeros: nat)
    requires AllDigits(digits) && digits != ""
    ensures forall c | c in (if pointed then Pointed(digits, 1, point) else digits) + Zeros(zeros) ::
              IsDigit(c) || c == point
  {
    assert forall c | c in Zeros(zeros) :: IsDigit(c);
    assert forall c | c in digits[..1] || c in digits[1..] :: c in digits;
    assert forall c | c in digits :: IsDigit(c);
  }

  lemma LetterShown(fspecs: FloatSpecs, mantissa: string, expText: string)
    requires forall c | c in mantissa :: IsDigit(c) || c == fspecs.decimalPoint
    requires Acceptable(fspecs) && |expText| >= 3 && expText[0] in {'+', '-'} && AllDigits(expText[1..])
    ensures LetterFree(fspecs) ==>
      ExponentShown(fspecs, fspecs.sign + mantissa + ([if fspecs.upper then 'E' else 'e'] + expText), true)
  {
    var letter := if fspecs.upper then 'E' else 'e';
    var text, i := fspecs.sign + mantissa + ([letter] + expText), |fspecs.sign| + |mantissa|;
    assert text[i] == letter && text[i + 1] == expText[0] && text[i + 2..] == expText[1..];
    forall c | c in expText
      ensures c == expText[0] || IsDigit(c)
    {
      var k :| 0 <= k < |expText| && expText[k] == c;
      assert k > 0 ==> c == expText[1..][k - 1];
    }
    assert LetterFree(fspecs) ==> forall c | c in fspecs.sign :: c in fspecs.sign + fspecs.grouping.separator;
  }

  /** A single integral digit is never grouped. */
  lemma LaidUngrouped(fspecs: FloatSpecs, digits: string, exponent: int, shape: Shape, text: string, plain: string)
    requires Acceptable(fspecs) && text == fspecs.sign + plain && shape.integral == 1 <= |plain|
    requires ReadShape(plain, fspecs.decimalPoint) == shape
    requires Denotes(ReadNumber(plain, fspecs.decimalPoint), Decimal(digits), exponent)
    ensures Laid(fspecs, digits, exponent, shape, text)
  {
    hide Denotes, ReadNumber, ReadShape, Positions, Grouped;
    assert Positions(fspecs.grouping, INITIAL, 1) == [] by { NoPositions(fspecs.grouping); }
    Ungrouped(plain[..1], 0, fspecs.grouping.separator);
    assert text == fspecs.sign + plain[..1] + plain[1..];
    assert LaidAs(fspecs, digits, exponent, shape, text, plain);
  }

  lemma NoPositions(g: Grouping)
    requires Usable(g)
    ensures Positions(g, INITIAL, 1) == []
  {
    var (p, _) := Next(g, INITIAL);
    assert p >= 1;
  }

  lemma LaidGrouped(fspecs: FloatSpecs, digits: string, exponent: int, shape: Shape, text: string,
                    whole: string, rest: string)
    requires Acceptable(fspecs) && shape.integral == |whole| <= INT_MAX
    requires text == fspecs.sign
      + Grouped(whole, 0, Positions(fspecs.grouping, INITIAL, |whole|), fspecs.grouping.separator) + rest
    requires ReadShape(whole + rest, fspecs.decimalPoint) == shape
    requires Denotes(ReadNumber(whole + rest, fspecs.decimalPoint), Decimal(digits), exponent)
    ensures Laid(fspecs, digits, exponent, shape, text)
  {
    hide Denotes, ReadNumber, ReadShape, Positions, Grouped;
    assert (whole + rest)[..|whole|] == whole && (whole + rest)[|whole|..] == rest;
    assert LaidAs(fspecs, digits, exponent, shape, text, whole + rest);
  }

  lemma ScientificReads(digits: string, point: char, pointed: bool, zeros: nat, e: string, exponent: int)
    requires AllDigits(digits) && digits != "" && !IsDigit(point) && point != 'e' && point != 'E'
    requires e != "" && (e[0] == 'e' || e[0] == 'E') && ReadExponent(e) == exponent + |digits| - 1
    requires !pointed ==> |digits| == 1 && zeros == 0
    ensures var rest := (if pointed then Pointed(digits, 1, point) else digits) + Zeros(zeros) + e;
      && ReadShape(rest, point) == Shape(1, pointed, |digits| - 1 + zeros, true)
      && Denotes(ReadNumber(rest, point), Decimal(digits), exponent)
  {
    hide Decimal, ReadNumber, ReadShape, Denotes, ReadExponent;
    var fraction := digits[1..] + Zeros(zeros);
    if pointed {
      assert Pointed(digits, 1, point) + Zeros(zeros) + e == digits[..1] + [point] + fraction + e;
      ReadsAs(digits[..1], point, fraction, e);
      assert digits[..1] + fraction == digits + Zeros(zeros);
    } else {
      assert digits + Zeros(0) == digits;
      ReadsAs(digits, point, "", e);
    }
    Shifted(digits, zeros, exponent);
  }

  /** 1234e5 -> 123400000[.0+] */
  method WriteWhole(digits: string, exponent: nat, fspecs: FloatSpecs)
    returns (text: string, size: nat)
    requires AllDigits(digits) && Acceptable(fspecs) && exponent + |digits| <= 10000
    ensures Laid(fspecs, digits, exponent, PositionalShape(digits, exponent, fspecs), text) && size == |text|
  {
    hide Decimal, ReadNumber, ReadShape, Denotes, Grouped, Positions, Laid;
    size := |digits| + |fspecs.sign| + exponent;
    var exp := exponent + |digits|;
    var numZeros := fspecs.precision - exp;
    if fspecs.showpoint {
      size := size + 1;
      if numZeros <= 0 && fspecs.format != Fixed {
        numZeros := 0;
      }
      if numZeros > 0 {
        size := size + numZeros;
      }
    }
    var separators := CountSeparators(fspecs.grouping, exp);
    size := size + separators;
    var all := digits + Zeros(exponent);
    ghost var whole := all;
    var grouped := Apply(fspecs.grouping, all);
    GroupedSize(fspecs, all, separators);
    text := fspecs.sign + grouped;
    ghost var rest := "";
    var z: nat := 0;
    if fspecs.showpoint {
      z := Pos(numZeros);
      rest := [fspecs.decimalPoint] + Zeros(z);
      text := text + [fspecs.decimalPoint];
      if numZeros > 0 {
        text := text + Zeros(numZeros);
      }
      assert whole + rest == whole + [fspecs.decimalPoint] + Zeros(z) + "";
    } else {
      assert whole + rest == whole + "" && whole + Zeros(0) == whole;
    }
    ReadsAs(whole, fspecs.decimalPoint, Zeros(z), "");
    DecimalTrailing(digits, exponent);
    Lengthened(digits, exponent, z);
    assert text == fspecs.sign + grouped + rest;
    LaidGrouped(fspecs, digits, exponent, PositionalShape(digits, exponent, fspecs), text, whole, rest);
  }

  /** 1234e-2 -> 12.34[0+] */
  method WriteMixed(digits: string, exponent: int, fspecs: FloatSpecs)
    returns (text: string, size: nat)
    requires AllDigits(digits) && Acceptable(fspecs) && exponent < 0 < exponent + |digits| <= 10000
    ensures Laid(fspecs, digits, exponent, PositionalShape(digits, exponent, fspecs), text) && size == |text|
  {
    hide Decimal, ReadNumber, ReadShape, Denotes, Grouped, Positions, Laid;
    var exp: nat := exponent + |digits|;
    var numZeros := if fspecs.showpoint then fspecs.precision - |digits| else 0;
    size := |digits| + |fspecs.sign| + 1 + Pos(numZeros);
    var separators := CountSeparators(fspecs.grouping, exp);
    size := size + separators;
    ghost var whole := digits[..exp];
    var grouped := Apply(fspecs.grouping, digits[..exp]);
    GroupedSize(fspecs, whole, separators);
    text := fspecs.sign + grouped + [fspecs.decimalPoint] + digits[exp..] + Zeros(Pos(numZeros));
    ghost var fraction := digits[exp..] + Zeros(Pos(numZeros));
    ghost var rest := [fspecs.decimalPoint] + fraction;
    assert text == fspecs.sign + grouped + rest;
    assert whole + rest == whole + [fspecs.decimalPoint] + fraction + "";
    ReadsAs(whole, fspecs.decimalPoint, fraction, "");
    assert whole + fraction == digits + Zeros(Pos(numZeros));
    Shifted(digits, Pos(numZeros), exponent);
    LaidGrouped(fspecs, digits, exponent, PositionalShape(digits, exponent, fspecs), text, whole, rest);
  }

  /** 1234e-6 -> 0.001234 */
  method WriteFraction(digits: string, exponent: int, fspecs: FloatSpecs)
    returns (text: string, size: nat)
    requires AllDigits(digits) && Acceptable(fspecs) && exponent < 0 && exponent + |digits| <= 0
    ensures Laid(fspecs, digits, exponent, PositionalShape(digits, exponent, fspecs), text) && size == |text|
  {
    hide Decimal, ReadNumber, ReadShape, Denotes, Laid;
    size := |digits| + |fspecs.sign|;
    var numZeros: nat := -(exponent + |digits|);
    if |digits| == 0 && 0 <= fspecs.precision < numZeros {
      numZeros := fspecs.precision;
    }
    var pointy := numZeros != 0 || |digits| != 0 || fspecs.showpoint;
    size := size + 1 + (if pointy then 1 else 0) + numZeros;
    text := fspecs.sign + "0";
    ghost var rest := "0";
    ghost var fraction := Zeros(numZeros) + digits;
    if pointy {
      text := text + [fspecs.decimalPoint] + Zeros(numZeros) + digits;
      rest := "0" + [fspecs.decimalPoint] + fraction;
    }
    assert text == fspecs.sign + rest && rest + "" == rest;
    ReadsAs("0", fspecs.decimalPoint, fraction, "");
    assert "0" + fraction == Zeros(1 + numZeros) + digits;
    DecimalLeadingZeros(1 + numZeros, digits);
    ZeroValue(digits, pointy, numZeros, exponent);
    LaidUngrouped(fspecs, digits, exponent, PositionalShape(digits, exponent, fspecs), text, rest);
  }

  /** The separators reserved for are those written, each one character. */
  lemma GroupedSize(fspecs: FloatSpecs, whole: string, separators: nat)
    requires Acceptable(fspecs) && |whole| <= INT_MAX
    requires separators == |Positions(fspecs.grouping, INITIAL, |whole|)|
    ensures |Grouped(whole, 0, Positions(fspecs.grouping, INITIAL, |whole|), fspecs.grouping.separator)|
      == |whole| + separators
  {
    hide Positions, Grouped;
    GroupedLength(fspecs.grouping, whole);
  }

  lemma ExponentReads(expText: string, exp: int, upper: bool)
    requires |expText| >= 1 && AllDigits(expText[1..]) && expText[0] == if exp < 0 then '-' else '+'
    requires Decimal(expText[1..]) == if exp < 0 then -exp else exp
    ensures ReadExponent([if upper then 'E' else 'e'] + expText) == exp
  {
    var t := [if upper then 'E' else 'e'] + expText;
    assert t[2..] == expText[1..];
  }

  /** Trailing zeros do not change the number. */
  lemma Shifted(digits: string, zeros: nat, e: int)
    ensures Denotes(Reading(Decimal(digits + Zeros(zeros)), e - zeros), Decimal(digits), e)
  {
    DecimalTrailing(digits, zeros);
  }

  lemma Lengthened(digits: string, exponent: nat, z: nat)
    ensures Denotes(Reading(Decimal((digits + Zeros(exponent)) + Zeros(z)), 0 - z), Decimal(digits), exponent)
    ensures Denotes(Reading(Decimal(digits + Zeros(exponent)), 0), Decimal(digits), exponent)
  {
    DecimalTrailing(digits, exponent);
    DecimalTrailing(digits + Zeros(exponent), z);
    PowAdd(10, exponent, z);
    MulAssoc(Decimal(digits), Pow(10, exponent), Pow(10, z));
  }

  /** A leading zero and point, or a lone zero for no digits at all. */
  lemma ZeroValue(digits: string, pointy: bool, zeros: nat, exponent: int)
    requires digits == "" || (pointy && zeros == -(exponent + |digits|))
    ensures digits == "" ==> Decimal(digits) == 0 && Decimal("0") == 0
    ensures Denotes(if pointy then Reading(Decimal(digits), -(zeros + |digits|)) else Reading(Decimal("0"), 0),
                    Decimal(digits), exponent)
  {
    DecimalZeros("0");
    assert Pow(10, 0) == 1;
  }
}
