/** The text of a format specification, and that it is read back as that specification. */
module SpecText {
  import opened Arith
  import opened Decimals
  import opened FormatSpecs
  import opened IntegerText
  import opened Texts

  // ---- The text of each part

  function AlignChar(a: Align): string
  {
    match a
    case Left => "<"
    case Right => ">"
    case Center => "^"
    case _ => ""
  }

  function AlignText(sp: Specs): string
  {
    if AlignChar(sp.align) == "" then "" else (if sp.fill == " " then "" else sp.fill) + AlignChar(sp.align)
  }

  function SignText(sp: Specs): string
  {
    match sp.sign
    case NoSign => ""
    case Plus => "+"
    case Minus => "-"
    case Space => " "
  }

  /** What stands between the braces of a reference: automatic numbers are left out. */
  function RefText(ref: ArgRef, auto: bool): string
  {
    match ref
    case NoRef => ""
    case RefIndex(k) => if auto || k < 0 then "" else Numeral(k)
    case RefName(name) => name
  }

  /** A number, or a reference to an argument. */
  function DynamicText(value: int, ref: ArgRef, auto: bool): string
  {
    if ref != NoRef then "{" + (RefText(ref, auto) + "}") else if value < 0 then "" else Numeral(value)
  }

  function WidthText(sp: Specs, auto: bool): string
  {
    if sp.width == 0 && sp.widthRef == NoRef then "" else DynamicText(sp.width, sp.widthRef, auto)
  }

  predicate HasPrecision(sp: Specs)
  {
    sp.precision != -1 || sp.precisionRef != NoRef
  }

  function PrecisionText(sp: Specs, auto: bool): string
  {
    if HasPrecision(sp) then "." + DynamicText(sp.precision, sp.precisionRef, auto) else ""
  }

  function LetterText(sp: Specs): string
  {
    match sp.presentation
    case Default => ""
    case As(c) => [c]
  }

  /** The whole text with the closing brace; references are automatic or numbered. */
  function TextOf(sp: Specs, auto: bool): string
  {
    AlignText(sp) + (SignText(sp) + ((if sp.alt then "#" else "") + ((if sp.align == Numeric then "0" else "")
      + (WidthText(sp, auto) + (PrecisionText(sp, auto) + ((if sp.localized then "L" else "")
      + (LetterText(sp) + "}")))))))
  }

  // ---- Specifications that have a text

  /** A fill the parser takes: one code point that is no brace. */
  predicate FillFits(fill: string)
  {
    |fill| > 0 && |fill| == CodePointLength(fill[0]) && fill[0] != '{' && fill[0] != '}'
  }

  predicate IsNameChar(c: char)
  {
    IsNameStart(c) || IsDigit(c)
  }

  predicate IsName(name: string)
  {
    |name| > 0 && IsNameStart(name[0]) && forall k | 0 <= k < |name| :: IsNameChar(name[k])
  }

  predicate RefFits(value: int, none: int, ref: ArgRef)
  {
    match ref
    case NoRef => none <= value <= INT_MAX
    case RefIndex(_) => value == none
    case RefName(name) => value == none && IsName(name)
  }

  /** Everything in the specification is allowed for the type, and fill and alignment go together. */
  predicate Fits(sp: Specs, t: ArgType)
  {
    && (sp.sign != NoSign ==> t.SignedInt? || t.Float?)
    && (sp.alt || sp.localized || sp.align == Numeric ==> IsArithmetic(t))
    && (sp.align == NoAlign ==> sp.fill == " ") && (sp.align == Numeric ==> sp.fill == "0") && FillFits(sp.fill)
    && RefFits(sp.width, 0, sp.widthRef) && RefFits(sp.precision, -1, sp.precisionRef)
    && (HasPrecision(sp) ==> t.Float? || t.String? || t.CString?)
    && (sp.presentation.As? ==> IsLetter(sp.presentation.letter) && TakesLetter(t, sp.presentation.letter))
  }

  /** Whether the context next allows the reference: automatic ones count up, numbered ones may not follow them. */
  predicate RefFollows(ref: ArgRef, auto: bool, next: int)
  {
    ref.RefIndex? ==> if auto then next >= 0 && ref.index == next else next <= 0 && 0 <= ref.index <= INT_MAX
  }

  function NextAfter(ref: ArgRef, auto: bool, next: int): int
  {
    if !ref.RefIndex? then next else if auto then next + 1 else -1
  }

  /** The same for the width, then the precision. */
  predicate Follows(sp: Specs, auto: bool, next: int)
  {
    RefFollows(sp.widthRef, auto, next) && RefFollows(sp.precisionRef, auto, NextAfter(sp.widthRef, auto, next))
  }

  function After(sp: Specs, auto: bool, next: int): int
  {
    NextAfter(sp.precisionRef, auto, NextAfter(sp.widthRef, auto, next))
  }

  // ---- Reading numbers and references back

  lemma NumeralAt(s: string, i: nat, n: nat, errorValue: int)
    requires Stands(s, i, Numeral(n)) && n <= INT_MAX
    requires i + |Numeral(n)| < |s| && !IsDigit(s[i + |Numeral(n)|])
    ensures DigitsEnd(s, i) == i + |Numeral(n)| && NonnegativeInt(s, i, errorValue) == n
    ensures IsDigit(s[i]) && (s[i] == '0' <==> n == 0)
  {
    hide Numeral;
    var t := Numeral(n);
    var rest := s[i + |t|..];
    NumeralParses(n, rest, errorValue);
    DigitsEndAt(s, i, i + |t|);
    assert (t + rest)[0..|t|] == t;
    NumeralDenotes(n);
    assert s[i] == s[i..i + |t|][0] == t[0];
  }

  /** The number of an argument is read back as that number. */
  lemma IndexIsRead(s: string, i: nat, k: nat)
    requires k <= INT_MAX && Stands(s, i, Numeral(k))
    requires var e := i + |Numeral(k)|; e < |s| && (s[e] == '}' || s[e] == ':')
    ensures IsDigit(s[i]) && ReadArgId(s, i) == Id(ByIndex(k), i + |Numeral(k)|)
  {
    hide Numeral, NonnegativeInt, DigitsEnd;
    NumeralAt(s, i, k, INT_MAX);
    ZeroIsShort(k);
  }

  /** A name is read back as that name. */
  lemma NameIsRead(s: string, i: nat, name: string)
    requires IsName(name) && Stands(s, i, name) && (i + |name| < |s| ==> !IsNameChar(s[i + |name|]))
    ensures ReadArgId(s, i) == Id(ByName(name), i + |name|)
  {
    forall k | i <= k < i + |name|
      ensures IsNameChar(s[k])
    {
      StandsChar(s, i, name, k - i);
    }
    StandsChar(s, i, name, 0);
    NameEndAt(s, i + 1, i + |name|);
  }

  lemma {:induction false} NameEndAt(s: string, i: nat, e: nat)
    requires i <= e <= |s| && (forall k | i <= k < e :: IsNameChar(s[k])) && (e < |s| ==> !IsNameChar(s[e]))
    ensures NameEnd(s, i) == e
    decreases e - i
  {
    if i < e {
      NameEndAt(s, i + 1, e);
    }
  }

  lemma ZeroIsShort(k: nat)
    ensures k == 0 ==> |Numeral(k)| == 1
  {}

  // ---- One part after the other

  /** The specification still to be read from i on. */
  function Reading(s: string, i: nat, t: ArgType, specs: Specs, part: Part, next: int): Parsed<Specs>
    requires i < |s|
  {
    SpecsFrom(s, i, s[i], t, specs, part, next)
  }

  /** A turn that goes on. */
  lemma Continues(s: string, i: nat, c: char, t: ArgType, specs: Specs, part: Part, next: int)
    requires i < |s| && (c == s[i] || c == '\0') && SpecTurn(s, i, c, t, specs, part, next).More?
    requires SpecTurn(s, i, c, t, specs, part, next).pos < |s|
    ensures var r := SpecTurn(s, i, c, t, specs, part, next);
      SpecsFrom(s, i, c, t, specs, part, next) == Reading(s, r.pos, t, r.specs, r.part, r.next)
  {
    hide SpecTurn;
  }

  /** Which turn each character takes. */
  lemma TurnAt(s: string, i: nat, t: ArgType, specs: Specs, part: Part, next: int)
    requires i < |s|
    ensures var turn := SpecTurn(s, i, s[i], t, specs, part, next);
      && (s[i] == '+' || s[i] == '-' || s[i] == ' ' ==>
          turn == Enter(part, SignPart, t.SignedInt? || t.Float?, specs.(sign := SignOf(s[i])), i + 1, next))
      && (s[i] == '#' ==> turn == Enter(part, HashPart, IsArithmetic(t), specs.(alt := true), i + 1, next))
      && (s[i] == '0' ==> turn == ZeroTurn(i, t, specs, part, next))
      && ((IsDigit(s[i]) && s[i] != '0') || s[i] == '{' ==> turn == WidthTurn(s, i, specs, part, next))
      && (s[i] == '.' ==> turn == PrecisionTurn(s, i, t, specs, part, next))
      && (s[i] == 'L' ==> turn == Enter(part, LocalePart, IsArithmetic(t), specs.(localized := true), i + 1, next))
      && (s[i] == '}' ==> turn == Return(specs, i, next))
  {
    hide TakesLetter, FillTurn, WidthTurn, PrecisionTurn, ZeroTurn, Enter, IsArithmetic;
  }

  function SignOf(c: char): SignSpec
  {
    if c == '+' then Plus else if c == '-' then Minus else Space
  }

  /** A presentation letter is none of the characters that start another part. */
  lemma LetterTurn(s: string, i: nat, t: ArgType, specs: Specs, part: Part, next: int)
    requires i < |s| && IsLetter(s[i]) && TakesLetter(t, s[i])
    ensures SpecTurn(s, i, s[i], t, specs, part, next) == Return(specs.(presentation := As(s[i])), i + 1, next)
  {
    hide TakesLetter, FillTurn, WidthTurn, PrecisionTurn, ZeroTurn, Enter, IsArithmetic;
  }

  /** None of the characters is an alignment. */
  predicate Unaligned(t: string)
  {
    forall k | 0 <= k < |t| :: ParseAlign(t[k]) == NoAlign
  }

  /** Neither the substitute character nor the first byte of a longer code point starts another part. */
  lemma DefaultTurn(s: string, i: nat, c: char, t: ArgType, specs: Specs, part: Part, next: int)
    requires i < |s| && (c == s[i] || c == '\0') && (c == '\0' || c as int >= 0xC0)
    ensures SpecTurn(s, i, c, t, specs, part, next) == FillTurn(s, i, specs, part, next)
  {
    hide WidthTurn, PrecisionTurn, ZeroTurn, FillTurn, Enter, TakesLetter;
  }

  /** A fill character and its alignment. */
  lemma FillIsRead(s: string, i: nat, t: ArgType, fill: string, a: Align, next: int)
    requires FillFits(fill) && AlignChar(a) != "" && Stands(s, i, fill + AlignChar(a))
    ensures SpecTurn(s, i, FirstChar(s, i), t, NO_SPECS, Start, next)
         == More(NO_SPECS.(fill := fill, align := a), i + |fill| + 1, AlignPart, next)
  {
    hide SpecTurn;
    var text := fill + AlignChar(a);
    var n := |fill|;
    assert s[i] == s[i..i + |text|][0] == fill[0];
    assert s[i + n] == s[i..i + |text|][n] == AlignChar(a)[0];
    assert s[i..i + n] == s[i..i + |text|][..n] == fill;
    assert ParseAlign(s[i + n]) == a;
    if n > 1 {
      assert s[i + 1] == s[i..i + |text|][1] == fill[1];
    }
    DefaultTurn(s, i, FirstChar(s, i), t, NO_SPECS, Start, next);
  }

  /** An alignment alone. */
  lemma AlignIsRead(s: string, i: nat, t: ArgType, a: Align, next: int)
    requires AlignChar(a) != "" && i + 1 < |s| && [s[i]] == AlignChar(a) && ParseAlign(s[i + 1]) == NoAlign
    ensures SpecTurn(s, i, FirstChar(s, i), t, NO_SPECS, Start, next)
         == More(NO_SPECS.(align := a), i + 1, AlignPart, next)
  {
    hide WidthTurn, PrecisionTurn, ZeroTurn, FillTurn;
  }

  // ---- What is accepted

  /** What has been read up to a part, from the context first on. */
  predicate Partial(specs: Specs, part: Part, t: ArgType, first: int, next: int)
  {
    && Fits(specs, t)
    && (Rank(part) < 5 ==> specs.width == 0 && specs.widthRef == NoRef)
    && (Rank(part) < 6 ==> specs.precision == -1 && specs.precisionRef == NoRef)
    && Follows(specs, next > 0, first) && next == After(specs, next > 0, first)
  }

  /** It stays so after a turn, unless the turn stops. */
  predicate Keeps(turn: Turn, t: ArgType, first: int)
  {
    match turn
    case Stop(_) => true
    case Return(specs, _, next) => Partial(specs, LocalePart, t, first, next)
    case More(specs, _, part, next) => Partial(specs, part, t, first, next)
  }

  lemma TurnKeeps(s: string, b: nat, c: char, t: ArgType, specs: Specs, part: Part, first: int, next: int)
    requires b < |s| && (c == s[b] || c == '\0') && Partial(specs, part, t, first, next)
    ensures Keeps(SpecTurn(s, b, c, t, specs, part, next), t, first)
  {
    hide Keeps, Partial, Enter, WidthTurn, PrecisionTurn, FillTurn, ZeroTurn, TakesLetter, IsArithmetic, IsLetter;
    FillKeeps(s, b, t, specs, part, first, next);
    ZeroKeeps(b, t, specs, part, first, next);
    PrecisionKeeps(s, b, t, specs, part, first, next);
    if IsDigit(s[b]) || s[b] == '{' {
      WidthKeeps(s, b, t, specs, part, first, next);
    }
    EnterKeeps(b, c, t, specs, part, first, next);
    StopKeeps(t, first);
    if IsLetter(c) && TakesLetter(t, c) {
      LetterKeeps(b, c, t, specs, part, first, next);
    }
    if c == '}' {
      EndKeeps(b, t, specs, part, first, next);
    }
  }

  lemma StopKeeps(t: ArgType, first: int)
    ensures Keeps(Stop(INVALID), t, first)
  {}

  lemma EndKeeps(b: nat, t: ArgType, specs: Specs, part: Part, first: int, next: int)
    requires Partial(specs, part, t, first, next)
    ensures Keeps(Return(specs, b, next), t, first)
  {
    hide Fits, RefFollows, NextAfter;
  }

  lemma LetterKeeps(b: nat, c: char, t: ArgType, specs: Specs, part: Part, first: int, next: int)
    requires Partial(specs, part, t, first, next) && IsLetter(c) && TakesLetter(t, c)
    ensures Keeps(Return(specs.(presentation := As(c)), b + 1, next), t, first)
  {
    hide FillFits, RefFits, RefFollows, NextAfter, TakesLetter, IsLetter, IsArithmetic;
  }

  lemma EnterKeeps(b: nat, c: char, t: ArgType, specs: Specs, part: Part, first: int, next: int)
    requires Partial(specs, part, t, first, next)
    ensures ParseAlign(c) != NoAlign ==>
      Keeps(Enter(part, AlignPart, true, specs.(align := ParseAlign(c)), b + 1, next), t, first)
    ensures var sign := if c == '+' then Plus else if c == '-' then Minus else Space;
      Keeps(Enter(part, SignPart, t.SignedInt? || t.Float?, specs.(sign := sign), b + 1, next), t, first)
    ensures Keeps(Enter(part, HashPart, IsArithmetic(t), specs.(alt := true), b + 1, next), t, first)
    ensures Keeps(Enter(part, LocalePart, IsArithmetic(t), specs.(localized := true), b + 1, next), t, first)
  {
    hide FillFits, RefFits, RefFollows, NextAfter, TakesLetter, IsArithmetic;
  }

  lemma FillKeeps(s: string, b: nat, t: ArgType, specs: Specs, part: Part, first: int, next: int)
    requires b < |s| && Partial(specs, part, t, first, next)
    ensures Keeps(FillTurn(s, b, specs, part, next), t, first)
  {
    hide RefFits, RefFollows, NextAfter, TakesLetter, IsArithmetic;
  }

  lemma ZeroKeeps(b: nat, t: ArgType, specs: Specs, part: Part, first: int, next: int)
    requires Partial(specs, part, t, first, next)
    ensures Keeps(ZeroTurn(b, t, specs, part, next), t, first)
  {
    hide RefFits, RefFollows, NextAfter, TakesLetter, IsArithmetic;
  }

  lemma WidthKeeps(s: string, b: nat, t: ArgType, specs: Specs, part: Part, first: int, next: int)
    requires b < |s| && (IsDigit(s[b]) || s[b] == '{') && Partial(specs, part, t, first, next)
    ensures Keeps(WidthTurn(s, b, specs, part, next), t, first)
  {
    hide RefFits, FillFits, TakesLetter, IsArithmetic, ParseDynamicSpec;
    if Rank(part) < 5 {
      DynamicAccepted(s, b, 0, next);
    }
  }

  lemma PrecisionKeeps(s: string, b: nat, t: ArgType, specs: Specs, part: Part, first: int, next: int)
    requires b < |s| && Partial(specs, part, t, first, next)
    ensures Keeps(PrecisionTurn(s, b, t, specs, part, next), t, first)
  {
    hide RefFits, FillFits, TakesLetter, IsArithmetic, ParseDynamicSpec;
    if Rank(part) < 6 && b + 1 < |s| {
      DynamicAccepted(s, b + 1, -1, next);
    }
  }

  /** A width or precision that is accepted fits, and so does its reference the context. */
  lemma DynamicAccepted(s: string, b: nat, none: int, next: int)
    requires b < |s| && -1 <= none <= 0
    ensures var r := ParseDynamicSpec(s, b, Dynamic(none, NoRef), next);
      r.Good? ==>
        && RefFits(r.value.value, none, r.value.ref)
        && RefFollows(r.value.ref, r.next > 0, next) && r.next == NextAfter(r.value.ref, r.next > 0, next)
  {
    hide DigitsEnd, Decimal, NameEnd;
    if s[b] == '{' && b + 1 < |s| {
      NameIsAccepted(s, b + 1);
    }
  }

  lemma NameIsAccepted(s: string, b: nat)
    requires b < |s|
    ensures var r := ReadArgId(s, b);
      && (r.Id? && r.id.ByName? ==> IsName(r.id.name)) && (r.Id? && r.id.ByIndex? ==> r.id.index <= INT_MAX)
  {
    hide DigitsEnd, Decimal;
    if IsNameStart(s[b]) {
      NameCharsOnly(s, b + 1);
    }
  }

  lemma {:induction false} NameCharsOnly(s: string, i: nat)
    requires i <= |s|
    ensures forall k | i <= k < NameEnd(s, i) :: IsNameChar(s[k])
    decreases |s| - i
  {
    if i < |s| {
      NameCharsOnly(s, i + 1);
    }
  }

  lemma {:induction false} AcceptedFrom(s: string, b: nat, c: char, t: ArgType, specs: Specs, part: Part, first: int,
                                        next: int)
    requires b < |s| && (c == s[b] || c == '\0') && Partial(specs, part, t, first, next)
    requires SpecsFrom(s, b, c, t, specs, part, next).Good?
    ensures var r := SpecsFrom(s, b, c, t, specs, part, next); Partial(r.value, LocalePart, t, first, r.next)
    decreases |s| - b
  {
    hide SpecTurn, Fits, Follows, After;
    TurnKeeps(s, b, c, t, specs, part, first, next);
    match SpecTurn(s, b, c, t, specs, part, next)
    case Return(_, _, _) =>
    case More(specs', e, part', next') =>
      if e < |s| {
        AcceptedFrom(s, e, s[e], t, specs', part', first, next');
      }
    case Stop(_) => assert false;
  }

  /** What is accepted anywhere fits the type, and its references the context. */
  lemma AcceptedFits(s: string, b: nat, t: ArgType, next: int)
    requires b <= |s| && SpecsAt(s, b, t, next).Good?
    ensures var r := SpecsAt(s, b, t, next);
      Fits(r.value, t) && Follows(r.value, r.next > 0, next) && r.next == After(r.value, r.next > 0, next)
  {
    hide SpecsFrom;
    if b < |s| {
      AcceptedFrom(s, b, FirstChar(s, b), t, NO_SPECS, Start, next, next);
    }
  }

  /** Some text is accepted as the specification. */
  ghost predicate Accepted(sp: Specs, t: ArgType, next: int)
  {
    exists s: string, b: nat | b <= |s| :: SpecsAt(s, b, t, next).Good? && SpecsAt(s, b, t, next).value == sp
  }
}
