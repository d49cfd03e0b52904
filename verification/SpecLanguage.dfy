/** The format specification grammar by its characters: which specifications and which texts are accepted. */
module SpecLanguage {
  import opened Arith
  import opened Decimals
  import opened FormatSpecs
  import opened IntegerText
  import opened SpecText
  import opened Texts

  // ---- Letters, fills and names

  predicate LetterAllowed(c: char, t: ArgType)
  {
    || (c in "doxXbBc" && t in {SignedInt, UnsignedInt, Bool, Character})
    || (c in "aAeEfFgG" && t == Float)
    || (c == 's' && t in {Bool, String, CString})
    || (c == 'p' && t in {Pointer, CString})
    || (c == '?' && t in {Character, String, CString})
  }

  /** One character below 0xC0 or above 0xF7, or as many as a leading byte of two, three or four announces. */
  predicate IsFill(fill: string)
  {
    && |fill| > 0 && fill[0] != '{' && fill[0] != '}'
    && var u := fill[0] as int;
       |fill| == if u < 0xC0 then 1 else if u < 0xE0 then 2 else if u < 0xF0 then 3 else if u < 0xF8 then 4 else 1
  }

  predicate IsIdentifier(name: string)
  {
    && |name| > 0 && !('0' <= name[0] <= '9')
    && forall k | 0 <= k < |name| ::
         'a' <= name[k] <= 'z' || 'A' <= name[k] <= 'Z' || name[k] == '_' || '0' <= name[k] <= '9'
  }

  lemma LettersMatch(c: char, t: ArgType)
    ensures IsLetter(c) && TakesLetter(t, c) <==> LetterAllowed(c, t)
  {}

  /** References by number are those that the context next counts, the width before the precision. */
  predicate CountsUp(sp: Specs, next: int)
  {
    && (sp.widthRef.RefIndex? || sp.precisionRef.RefIndex? ==> next >= 0)
    && (sp.widthRef.RefIndex? ==> sp.widthRef.index == next)
    && (sp.precisionRef.RefIndex? ==> sp.precisionRef.index == if sp.widthRef.RefIndex? then next + 1 else next)
  }

  // ---- Which texts

  /** The parts of a text, in their order. */
  datatype Pieces = Pieces(align: string, sign: string, hash: string, zero: string, width: string, precision: string,
                           locale: string, letter: string)

  const NO_PIECES := Pieces("", "", "", "", "", "", "", "")

  function Joined(p: Pieces): string
  {
    p.align + (p.sign + (p.hash + (p.zero + (p.width + (p.precision + (p.locale + p.letter))))))
  }

  /** The digits of k without leading zeros; whatever is too big counts as the largest int. */
  predicate IsIndex(id: string, k: int)
  {
    && id != "" && AllDigits(id) && (id[0] == '0' ==> |id| == 1)
    && if |id| <= 10 && Decimal(id) <= 2147483647 then k == Decimal(id) else k == 2147483647
  }

  /** The text of a width or precision: a number, or braces around nothing, a number or a name. */
  predicate IsDynamic(text: string, value: int, ref: ArgRef)
  {
    if ref == NoRef then 0 < |text| <= 10 && AllDigits(text) && value == Decimal(text) <= 2147483647
    else
      && |text| >= 2 && text[0] == '{' && text[|text| - 1] == '}'
      && var id := text[1..|text| - 1];
         match ref
         case RefName(name) => id == name && IsIdentifier(name)
         case RefIndex(k) => id == "" || IsIndex(id, k)
         case NoRef => true
  }

  /** A specification read so far, and the context's next automatic id. */
  datatype State = State(specs: Specs, next: int)

  /** Empty braces take the next id, numbered ones are for contexts that have given none out. */
  predicate Countable(text: string, ref: ArgRef, next: int)
  {
    text != "" && ref.RefIndex? ==> if text == "{}" then next >= 0 && ref.index == next else next <= 0
  }

  function Counted(text: string, ref: ArgRef, next: int): int
  {
    if text == "" || !ref.RefIndex? then next else if text == "{}" then next + 1 else -1
  }

  /** What is behind the point. */
  function Places(p: Pieces): string
  {
    if p.precision == "" then "" else p.precision[1..]
  }

  /** Each piece is empty or a part of its kind that the type allows, and together they lead from a to b. */
  predicate Explains(p: Pieces, t: ArgType, a: State, b: State)
  {
    ExplainsFront(p, t, a.specs, b.specs) && ExplainsBack(p, t, a, b)
  }

  predicate IsArithmeticType(t: ArgType)
  {
    t in {SignedInt, UnsignedInt, Bool, Character, Float}
  }

  predicate ExplainsFront(p: Pieces, t: ArgType, from: Specs, to: Specs)
  {
    && p.zero in {"", "0"} && p.hash in {"", "#"} && p.locale in {"", "L"}
    && (p.zero != "" || p.hash != "" || p.locale != "" ==> IsArithmeticType(t))
    && (if p.align != "" then
          && to.align in {Left, Right, Center}
          && (|| (p.align == AlignChar(to.align) && to.fill == from.fill)
              || (p.align == to.fill + AlignChar(to.align) && IsFill(to.fill)))
        else if p.zero == "0" && from.align == NoAlign then to.align == Numeric && to.fill == "0"
        else to.align == from.align && to.fill == from.fill)
    && (if p.sign == "" then to.sign == from.sign
        else to.sign != NoSign && p.sign == SignText(to) && t in {SignedInt, Float})
    && to.alt == (from.alt || p.hash == "#") && to.localized == (from.localized || p.locale == "L")
  }

  predicate ExplainsBack(p: Pieces, t: ArgType, a: State, b: State)
  {
    && (if p.width == "" then b.specs.width == a.specs.width && b.specs.widthRef == a.specs.widthRef
        else IsDynamic(p.width, b.specs.width, b.specs.widthRef) && p.width[0] != '0'
             && (b.specs.widthRef != NoRef ==> b.specs.width == a.specs.width))
    && (p.precision != "" ==> p.precision[0] == '.' && t in {Float, String, CString})
    && (if Places(p) == "" then
          b.specs.precision == a.specs.precision && b.specs.precisionRef == a.specs.precisionRef
        else IsDynamic(Places(p), b.specs.precision, b.specs.precisionRef)
             && (b.specs.precisionRef != NoRef ==> b.specs.precision == a.specs.precision))
    && (if p.letter == "" then b.specs.presentation == a.specs.presentation
        else |p.letter| == 1 && b.specs.presentation == As(p.letter[0]) && LetterAllowed(p.letter[0], t))
    && Countable(p.width, b.specs.widthRef, a.next)
    && var next := Counted(p.width, b.specs.widthRef, a.next);
       Countable(Places(p), b.specs.precisionRef, next) && b.next == Counted(Places(p), b.specs.precisionRef, next)
  }

  /** The pieces up to a part are empty. */
  predicate EmptyUpTo(p: Pieces, part: Part)
  {
    var k := Rank(part);
    && (k >= 1 ==> p.align == "") && (k >= 2 ==> p.sign == "") && (k >= 3 ==> p.hash == "")
    && (k >= 4 ==> p.zero == "") && (k >= 5 ==> p.width == "") && (k >= 6 ==> p.precision == "")
    && (k >= 7 ==> p.locale == "")
  }

  /** The text from b to e is p, leads from one state to the other, and ends where a specification may. */
  predicate Spells(s: string, b: nat, e: nat, p: Pieces, t: ArgType, from: State, to: State)
  {
    && b <= e <= |s| && s[b..e] == Joined(p) && Explains(p, t, from, to)
    && (p.letter == "" ==> e == |s| || s[e] == '}')
    && (p.precision == "." ==> p.locale != "" || p.letter != "")
  }

  /** The piece that a turn takes from the text, in front of pieces that come later. */
  function WithPiece(p: Pieces, part: Part, text: string): Pieces
  {
    match part
    case Start => p
    case AlignPart => p.(align := text)
    case SignPart => p.(sign := text)
    case HashPart => p.(hash := text)
    case ZeroPart => p.(zero := text)
    case WidthPart => p.(width := text)
    case PrecisionPart => p.(precision := text)
    case LocalePart => p.(locale := text)
  }

  lemma NothingInFront(t: string)
    ensures "" + t == t
  {}

  lemma JoinedWith(p: Pieces, part: Part, text: string)
    requires EmptyUpTo(p, part) && part != Start
    ensures Joined(WithPiece(p, part, text)) == text + Joined(p)
  {
    var l := p.locale + p.letter;
    var q := p.precision + l;
    var w := p.width + q;
    var z := p.zero + w;
    var h := p.hash + z;
    var g := p.sign + h;
    NothingInFront(l);
    NothingInFront(q);
    NothingInFront(w);
    NothingInFront(z);
    NothingInFront(h);
    NothingInFront(g);
    NothingInFront(text + h);
    NothingInFront(text + z);
    NothingInFront(text + w);
    NothingInFront(text + q);
    NothingInFront(text + l);
    NothingInFront(text + p.letter);
    NothingInFront(p.letter);
  }

  /** What one turn that goes on takes from the text. */
  predicate TakesPiece(s: string, b: nat, t: ArgType, specs: Specs, part: Part, next: int, turn: Turn)
    requires b <= |s|
  {
    turn.More? ==>
      && b < turn.pos <= |s| && Rank(part) < Rank(turn.part)
      && Explains(WithPiece(NO_PIECES, turn.part, s[b..turn.pos]), t, State(specs, next), State(turn.specs, turn.next))
      && (s[b..turn.pos] == "." ==> turn.pos < |s| && s[turn.pos] != '}' && turn.part == PrecisionPart)
  }

  /** Two steps of reading, the second for later parts only, are one. */
  lemma ExplainsBoth(p: Pieces, t: ArgType, part: Part, text: string, from: State, between: State, to: State)
    requires part != Start && EmptyUpTo(p, part) && text != ""
    requires Explains(WithPiece(NO_PIECES, part, text), t, from, between) && Explains(p, t, between, to)
    ensures Explains(WithPiece(p, part, text), t, from, to)
  {
    hide IsDynamic, AlignChar, LetterAllowed, IsFill;
    match part
    case _ =>
  }

  lemma NoMore(s: string, b: nat, t: ArgType, specs: Specs, part: Part, next: int, turn: Turn)
    requires b <= |s| && !turn.More?
    ensures TakesPiece(s, b, t, specs, part, next, turn)
  {}

  /** A turn that goes on takes a piece of a later kind; one that ends takes a letter, or nothing before a brace. */
  lemma TurnTakes(s: string, b: nat, c: char, t: ArgType, specs: Specs, part: Part, first: int, next: int)
    requires b < |s| && (c == s[b] || c == '\0') && Partial(specs, part, t, first, next)
    ensures var turn := SpecTurn(s, b, c, t, specs, part, next);
      && TakesPiece(s, b, t, specs, part, next, turn)
      && (turn.Return? ==>
          || (turn.specs == specs && turn.pos == b && s[b] == '}' && turn.next == next)
          || (turn.specs == specs.(presentation := As(s[b])) && turn.pos == b + 1 && turn.next == next
              && LetterAllowed(s[b], t)))
  {
    hide Explains, Partial, Fits, WidthTurn, PrecisionTurn, FillTurn, ZeroTurn, TakesLetter, IsArithmetic,
         LetterAllowed, TakesPiece, ParseAlign;
    NoMore(s, b, t, specs, part, next, Stop(INVALID));
    NoMore(s, b, t, specs, part, next, Return(specs, b, next));
    NoMore(s, b, t, specs, part, next, Return(specs.(presentation := As(s[b])), b + 1, next));
    FillTakes(s, b, t, specs, part, next);
    PrecisionTakes(s, b, t, specs, part, first, next);
    if IsDigit(s[b]) || s[b] == '{' {
      WidthTakes(s, b, t, specs, part, first, next);
    }
    EnterTakes(s, b, c, t, specs, part, next);
    LettersMatch(s[b], t);
  }

  /** Pieces in front of the width and the locale's leave width, precision and letter alone. */
  lemma BackStays(part: Part, text: string, t: ArgType, a: Specs, b: Specs, next: int)
    requires part in {AlignPart, SignPart, HashPart, ZeroPart, LocalePart}
    requires a.width == b.width && a.widthRef == b.widthRef && a.presentation == b.presentation
    requires a.precision == b.precision && a.precisionRef == b.precisionRef
    ensures ExplainsBack(WithPiece(NO_PIECES, part, text), t, State(a, next), State(b, next))
  {
    hide IsDynamic, LetterAllowed;
  }

  lemma EnterTakes(s: string, b: nat, c: char, t: ArgType, specs: Specs, part: Part, next: int)
    requires b < |s| && (c == s[b] || c == '\0')
    ensures c in {'<', '>', '^'} ==>
      TakesPiece(s, b, t, specs, part, next,
                 Enter(part, AlignPart, true, specs.(align := ParseAlign(c)), b + 1, next))
    ensures c in {'+', '-', ' '} ==>
      var sign := if c == '+' then Plus else if c == '-' then Minus else Space;
      TakesPiece(s, b, t, specs, part, next,
                 Enter(part, SignPart, t.SignedInt? || t.Float?, specs.(sign := sign), b + 1, next))
    ensures c == '#' ==>
      TakesPiece(s, b, t, specs, part, next,
                 Enter(part, HashPart, IsArithmetic(t), specs.(alt := true), b + 1, next))
    ensures c == '0' ==> TakesPiece(s, b, t, specs, part, next, ZeroTurn(b, t, specs, part, next))
    ensures c == 'L' ==>
      TakesPiece(s, b, t, specs, part, next,
                 Enter(part, LocalePart, IsArithmetic(t), specs.(localized := true), b + 1, next))
  {
    hide TakesPiece, Enter, ZeroTurn, IsArithmetic, ParseAlign;
    assert s[b..b + 1] == [s[b]];
    if c in {'<', '>', '^'} {
      AlignTakes(s, b, t, specs, part, next);
    } else if c in {'+', '-', ' '} {
      SignTakes(s, b, t, specs, part, next);
    } else if c in {'#', 'L'} {
      FlagTakes(s, b, t, specs, part, next);
    } else if c == '0' {
      ZeroTakes(s, b, t, specs, part, next);
    }
  }

  lemma AlignTakes(s: string, b: nat, t: ArgType, specs: Specs, part: Part, next: int)
    requires b < |s| && s[b] in {'<', '>', '^'} && s[b..b + 1] == [s[b]]
    ensures TakesPiece(s, b, t, specs, part, next,
                       Enter(part, AlignPart, true, specs.(align := ParseAlign(s[b])), b + 1, next))
  {
    hide ExplainsBack, IsFill;
    BackStays(AlignPart, [s[b]], t, specs, specs.(align := ParseAlign(s[b])), next);
  }

  lemma SignTakes(s: string, b: nat, t: ArgType, specs: Specs, part: Part, next: int)
    requires b < |s| && s[b] in {'+', '-', ' '} && s[b..b + 1] == [s[b]]
    ensures var sign := if s[b] == '+' then Plus else if s[b] == '-' then Minus else Space;
      TakesPiece(s, b, t, specs, part, next,
                 Enter(part, SignPart, t.SignedInt? || t.Float?, specs.(sign := sign), b + 1, next))
  {
    hide ExplainsBack, IsFill;
    var sign := if s[b] == '+' then Plus else if s[b] == '-' then Minus else Space;
    BackStays(SignPart, [s[b]], t, specs, specs.(sign := sign), next);
  }

  lemma FlagTakes(s: string, b: nat, t: ArgType, specs: Specs, part: Part, next: int)
    requires b < |s| && s[b] in {'#', 'L'} && s[b..b + 1] == [s[b]]
    ensures TakesPiece(s, b, t, specs, part, next,
                       if s[b] == '#' then Enter(part, HashPart, IsArithmetic(t), specs.(alt := true), b + 1, next)
                       else Enter(part, LocalePart, IsArithmetic(t), specs.(localized := true), b + 1, next))
  {
    hide ExplainsBack, IsFill;
    BackStays(HashPart, [s[b]], t, specs, specs.(alt := true), next);
    BackStays(LocalePart, [s[b]], t, specs, specs.(localized := true), next);
  }

  lemma ZeroTakes(s: string, b: nat, t: ArgType, specs: Specs, part: Part, next: int)
    requires b < |s| && s[b] == '0' && s[b..b + 1] == [s[b]]
    ensures TakesPiece(s, b, t, specs, part, next, ZeroTurn(b, t, specs, part, next))
  {
    hide ExplainsBack, IsFill;
    BackStays(ZeroPart, [s[b]], t, specs,
              if specs.align == NoAlign then specs.(align := Numeric, fill := "0") else specs, next);
  }

  lemma FillTakes(s: string, b: nat, t: ArgType, specs: Specs, part: Part, next: int)
    requires b < |s|
    ensures var turn := FillTurn(s, b, specs, part, next);
      TakesPiece(s, b, t, specs, part, next, turn)
      && (turn.Return? ==> turn.specs == specs && turn.pos == b && s[b] == '}' && turn.next == next)
  {
    hide Explains, WithPiece, IsFill, CodePointLength, ParseAlign;
    var e := b + CodePointLength(s[b]);
    if e < |s| && s[b] != '{' && s[b] != '}' && ParseAlign(s[e]) != NoAlign {
      FillAt(s, b);
      FillExplains(s[b..e], s[e], t, specs, next);
    }
  }

  lemma FillAt(s: string, b: nat)
    requires b < |s| && b + CodePointLength(s[b]) < |s| && s[b] != '{' && s[b] != '}'
    ensures var e := b + CodePointLength(s[b]);
      IsFill(s[b..e]) && s[b..e + 1] == s[b..e] + [s[e]] && s[b..e + 1] != "."
  {}

  lemma FillExplains(fill: string, c: char, t: ArgType, specs: Specs, next: int)
    requires IsFill(fill) && ParseAlign(c) != NoAlign
    ensures Explains(WithPiece(NO_PIECES, AlignPart, fill + [c]), t, State(specs, next),
                     State(specs.(fill := fill, align := ParseAlign(c)), next))
  {
    hide ExplainsBack;
    BackStays(AlignPart, fill + [c], t, specs, specs.(fill := fill, align := ParseAlign(c)), next);
  }

  lemma WidthTakes(s: string, b: nat, t: ArgType, specs: Specs, part: Part, first: int, next: int)
    requires b < |s| && (IsDigit(s[b]) || s[b] == '{') && Partial(specs, part, t, first, next)
    ensures s[b] != '0' ==> TakesPiece(s, b, t, specs, part, next, WidthTurn(s, b, specs, part, next))
  {
    hide Fits, Follows, ParseDynamicSpec, IsDynamic, IsFill, LetterAllowed, Countable, Counted;
    if Rank(part) < 5 {
      DynamicTakes(s, b, 0, next);
      NothingCounted();
    }
  }

  lemma NothingCounted()
    ensures forall ref, n :: Countable("", ref, n) && Counted("", ref, n) == n
  {}

  lemma PrecisionTakes(s: string, b: nat, t: ArgType, specs: Specs, part: Part, first: int, next: int)
    requires b < |s| && Partial(specs, part, t, first, next)
    ensures s[b] == '.' ==> TakesPiece(s, b, t, specs, part, next, PrecisionTurn(s, b, t, specs, part, next))
  {
    hide Fits, Follows, ParseDynamicSpec, IsDynamic, Explains, WithPiece, Countable, Counted;
    if Rank(part) < 6 && b + 1 < |s| && s[b] == '.' {
      DynamicTakes(s, b + 1, -1, next);
      var r := ParseDynamicSpec(s, b + 1, Dynamic(-1, NoRef), next);
      if r.Good? && (t.Float? || t.String? || t.CString?) {
        assert s[b..r.pos] == "." + s[b + 1..r.pos];
        PlacesExplain(s[b + 1..r.pos], r.value, t, specs, next, r.next);
      }
    }
  }

  lemma PlacesExplain(text: string, d: Dynamic, t: ArgType, specs: Specs, next: int, next': int)
    requires t in {Float, String, CString} && specs.precision == -1 && specs.precisionRef == NoRef
    requires if text == "" then d == Dynamic(-1, NoRef) && next' == next
             else IsDynamic(text, d.value, d.ref) && (d.ref != NoRef ==> d.value == -1)
                  && Countable(text, d.ref, next) && next' == Counted(text, d.ref, next)
    ensures Explains(WithPiece(NO_PIECES, PrecisionPart, "." + text), t, State(specs, next),
                     State(specs.(precision := d.value, precisionRef := d.ref), next'))
  {
    hide IsDynamic, IsFill, LetterAllowed, Countable, Counted;
    NothingCounted();
    assert ("." + text)[1..] == text;
  }

  /** A width or precision that was read, by its text; it may also be left out. */
  lemma DynamicTakes(s: string, b: nat, none: int, next: int)
    requires b < |s|
    ensures var r := ParseDynamicSpec(s, b, Dynamic(none, NoRef), next);
      r.Good? ==>
        && b <= r.pos <= |s|
        && var text, d := s[b..r.pos], r.value;
           if IsDigit(s[b]) || s[b] == '{' then
             && IsDynamic(text, d.value, d.ref) && text[0] == s[b] && (d.ref != NoRef ==> d.value == none)
             && Countable(text, d.ref, next) && r.next == Counted(text, d.ref, next)
           else r.pos == b && d == Dynamic(none, NoRef) && r.next == next
  {
    hide NameEnd, DigitsEnd, Decimal, IsIndex, ReadArgId;
    var r := ParseDynamicSpec(s, b, Dynamic(none, NoRef), next);
    if r.Good? && s[b] == '{' {
      IdTakes(s, b + 1);
      assert s[b..r.pos][1..r.pos - b - 1] == s[b + 1..r.pos - 1];
    } else if r.Good? && IsDigit(s[b]) {
      DigitsOnly(s, b);
    }
  }

  lemma {:induction false} DigitsOnly(s: string, i: nat)
    requires i <= |s|
    ensures AllDigits(s[i..DigitsEnd(s, i)]) && (i < |s| && IsDigit(s[i]) ==> i < DigitsEnd(s, i))
    decreases |s| - i
  {
    if i < |s| && IsDigit(s[i]) {
      DigitsOnly(s, i + 1);
      assert s[i..DigitsEnd(s, i)] == [s[i]] + s[i + 1..DigitsEnd(s, i)];
    }
  }

  /** An argument id that was read, by its text. */
  lemma IdTakes(s: string, b: nat)
    requires b < |s|
    ensures match ReadArgId(s, b)
      case BadId => true
      case Id(Auto, e) => s[b..e] == ""
      case Id(ByName(name), e) => s[b..e] == name && IsIdentifier(name)
      case Id(ByIndex(k), e) => IsIndex(s[b..e], k)
  {
    hide NameEnd, DigitsEnd, Decimal;
    if IsDigit(s[b]) {
      DigitsOnly(s, b);
      LoneZero(s[b..b + 1]);
    } else {
      NameIsAccepted(s, b);
    }
  }

  /** A piece in front of what is read from e on. */
  lemma PieceInFront(s: string, b: nat, e: nat, end: nat, p: Pieces, t: ArgType, part: Part, part': Part, from: State,
                     between: State, to: State)
    requires b < e <= |s| && Rank(part) < Rank(part')
    requires EmptyUpTo(p, part') && Spells(s, e, end, p, t, between, to)
    requires Explains(WithPiece(NO_PIECES, part', s[b..e]), t, from, between)
    requires s[b..e] == "." ==> e < |s| && s[e] != '}' && part' == PrecisionPart
    ensures var p' := WithPiece(p, part', s[b..e]); EmptyUpTo(p', part) && Spells(s, b, end, p', t, from, to)
  {
    hide Explains, Joined;
    JoinedWith(p, part', s[b..e]);
    ExplainsBoth(p, t, part', s[b..e], from, between, to);
    assert s[b..end] == s[b..e] + s[e..end];
    if s[b..e] == "." && p.locale == "" && p.letter == "" {
      EmptyJoined(p);
    }
  }

  lemma EmptyJoined(p: Pieces)
    requires EmptyUpTo(p, LocalePart) && p.letter == ""
    ensures Joined(p) == ""
  {}

  /** No more pieces, or only the letter. */
  lemma LastPiece(s: string, b: nat, t: ArgType, part: Part, from: State)
    requires b <= |s|
    ensures EmptyUpTo(NO_PIECES, part) && (b == |s| || s[b] == '}' ==> Spells(s, b, b, NO_PIECES, t, from, from))
    ensures b < |s| && LetterAllowed(s[b], t) ==>
      var p := NO_PIECES.(letter := [s[b]]);
      && EmptyUpTo(p, part)
      && Spells(s, b, b + 1, p, t, from, from.(specs := from.specs.(presentation := As(s[b]))))
  {
    hide IsDynamic, LetterAllowed;
    if b < |s| {
      assert s[b..b + 1] == [s[b]];
    }
  }

  /** What is read from b on, in its pieces. */
  lemma {:induction false} SpelledFrom(s: string, b: nat, c: char, t: ArgType, specs: Specs, part: Part, first: int,
                                       next: int)
    returns (p: Pieces)
    requires b < |s| && (c == s[b] || c == '\0') && Partial(specs, part, t, first, next)
    requires SpecsFrom(s, b, c, t, specs, part, next).Good?
    ensures var r := SpecsFrom(s, b, c, t, specs, part, next);
      EmptyUpTo(p, part) && Spells(s, b, r.pos, p, t, State(specs, next), State(r.value, r.next))
    decreases |s| - b
  {
    hide SpecTurn, Partial, Explains, EmptyUpTo, Spells, WithPiece, Fits, Follows, LetterAllowed;
    TurnKeeps(s, b, c, t, specs, part, first, next);
    TurnTakes(s, b, c, t, specs, part, first, next);
    LastPiece(s, b, t, part, State(specs, next));
    match SpecTurn(s, b, c, t, specs, part, next)
    case Return(_, e, _) =>
      p := if e == b then NO_PIECES else NO_PIECES.(letter := [s[b]]);
    case More(specs', e, part', next') =>
      if e < |s| {
        p := SpelledFrom(s, e, s[e], t, specs', part', first, next');
      } else {
        LastPiece(s, e, t, part', State(specs', next'));
        p := NO_PIECES;
      }
      var r := SpecsFrom(s, b, c, t, specs, part, next);
      PieceInFront(s, b, e, r.pos, p, t, part, part', State(specs, next), State(specs', next'),
                   State(r.value, r.next));
      p := WithPiece(p, part', s[b..e]);
    case Stop(_) => assert false;
  }

  /** Every text that is accepted consists of these pieces in this order, and means what they say. */
  lemma AcceptedIsSpelled(s: string, b: nat, t: ArgType, next: int) returns (p: Pieces)
    requires b <= |s| && SpecsAt(s, b, t, next).Good?
    ensures var r := SpecsAt(s, b, t, next);
      Spells(s, b, r.pos, p, t, State(NO_SPECS, next), State(r.value, r.next))
  {
    hide SpecsFrom, Partial, Explains;
    p := NO_PIECES;
    if b < |s| {
      NothingIsPartial(t, next);
      p := SpelledFrom(s, b, FirstChar(s, b), t, NO_SPECS, Start, next, next);
    } else {
      LastPiece(s, b, t, Start, State(NO_SPECS, next));
    }
  }

  lemma NothingIsPartial(t: ArgType, next: int)
    ensures Partial(NO_SPECS, Start, t, next, next)
  {}

  // ---- And every such text is accepted

  function Piece(p: Pieces, part: Part): string
  {
    match part
    case Start => ""
    case AlignPart => p.align
    case SignPart => p.sign
    case HashPart => p.hash
    case ZeroPart => p.zero
    case WidthPart => p.width
    case PrecisionPart => p.precision
    case LocalePart => p.locale
  }

  /** The state behind a piece. */
  function Behind(p: Pieces, part: Part, a: State, b: State): State
  {
    var sp := a.specs;
    match part
    case Start => a
    case AlignPart => a.(specs := sp.(align := b.specs.align, fill := b.specs.fill))
    case SignPart => a.(specs := sp.(sign := b.specs.sign))
    case HashPart => a.(specs := sp.(alt := true))
    case ZeroPart => a.(specs := if sp.align == NoAlign then sp.(align := Numeric, fill := "0") else sp)
    case WidthPart =>
      State(sp.(width := b.specs.width, widthRef := b.specs.widthRef), Counted(p.width, b.specs.widthRef, a.next))
    case PrecisionPart =>
      State(if Places(p) == "" then sp
            else sp.(precision := b.specs.precision, precisionRef := b.specs.precisionRef),
            Counted(Places(p), b.specs.precisionRef, a.next))
    case LocalePart => a.(specs := sp.(localized := true))
  }

  /** The first piece that is not empty. */
  predicate IsFirst(p: Pieces, part: Part)
  {
    && part != Start && Piece(p, part) != ""
    && var k := Rank(part);
       && (k > 1 ==> p.align == "") && (k > 2 ==> p.sign == "") && (k > 3 ==> p.hash == "") && (k > 4 ==> p.zero == "")
       && (k > 5 ==> p.width == "") && (k > 6 ==> p.precision == "")
  }

  function FirstPart(p: Pieces): Part
  {
    if p.align != "" then AlignPart
    else if p.sign != "" then SignPart
    else if p.hash != "" then HashPart
    else if p.zero != "" then ZeroPart
    else if p.width != "" then WidthPart
    else if p.precision != "" then PrecisionPart
    else if p.locale != "" then LocalePart
    else Start
  }

  lemma RestExplains(p: Pieces, t: ArgType, part: Part, a: State, b: State)
    requires IsFirst(p, part) && Explains(p, t, a, b)
    ensures var rest := WithPiece(p, part, "");
      EmptyUpTo(rest, part) && Explains(rest, t, Behind(p, part, a, b), b)
  {
    hide ExplainsFront, ExplainsBack, Behind;
    RestFront(p, t, part, a, b);
    RestBack(p, t, part, a, b);
  }

  lemma RestFront(p: Pieces, t: ArgType, part: Part, a: State, b: State)
    requires IsFirst(p, part) && ExplainsFront(p, t, a.specs, b.specs)
    ensures ExplainsFront(WithPiece(p, part, ""), t, Behind(p, part, a, b).specs, b.specs)
  {
    hide IsFill, Counted, IsArithmeticType;
  }

  lemma RestBack(p: Pieces, t: ArgType, part: Part, a: State, b: State)
    requires IsFirst(p, part) && ExplainsBack(p, t, a, b)
    ensures ExplainsBack(WithPiece(p, part, ""), t, Behind(p, part, a, b), b)
  {
    hide IsDynamic, LetterAllowed, Countable, Counted;
    NothingCounted();
  }

  /** What is left behind a piece. */
  lemma RestSpells(s: string, i: nat, e: nat, p: Pieces, t: ArgType, part: Part, a: State, b: State)
    requires IsFirst(p, part) && Spells(s, i, e, p, t, a, b)
    ensures var x := Piece(p, part);
      && i + |x| <= e && s[i..i + |x|] == x
      && Spells(s, i + |x|, e, WithPiece(p, part, ""), t, Behind(p, part, a, b), b)
  {
    var x, rest := Piece(p, part), WithPiece(p, part, "");
    RestExplains(p, t, part, a, b);
    PutBack(p, part);
    hide Explains, Joined, Behind, IsFirst, WithPiece, Piece, EmptyUpTo;
    JoinedWith(rest, part, x);
    SliceSplit(s, i, e, x, Joined(rest));
  }

  lemma SliceSplit(s: string, i: nat, e: nat, x: string, y: string)
    requires i <= e <= |s| && s[i..e] == x + y
    ensures i + |x| <= e && s[i..i + |x|] == x && s[i + |x|..e] == y
  {
    assert s[i..i + |x|] == (x + y)[..|x|];
    assert s[i + |x|..e] == (x + y)[|x|..];
  }

  lemma PutBack(p: Pieces, part: Part)
    requires IsFirst(p, part)
    ensures var rest := WithPiece(p, part, "");
      && WithPiece(rest, part, Piece(p, part)) == p && rest.letter == p.letter
      && (rest.precision == "." ==> p.precision == "." && rest.locale == p.locale)
  {}

  /** A width or precision is read as its text says. */
  lemma DynamicIsRead(s: string, i: nat, text: string, value: int, ref: ArgRef, none: int, next: int)
    requires Stands(s, i, text) && i + |text| < |s| && !IsDigit(s[i + |text|])
    requires IsDynamic(text, value, ref) && Countable(text, ref, next) && (ref != NoRef ==> value == none)
    ensures i < |s| && text != "" && s[i] == text[0] && (if ref == NoRef then IsDigit(s[i]) else s[i] == '{')
    ensures ParseDynamicSpec(s, i, Dynamic(none, NoRef), next)
         == Good(Dynamic(value, ref), i + |text|, Counted(text, ref, next))
  {
    hide NonnegativeInt, DigitsEnd, Decimal, ReadArgId, IsIndex, Stands;
    StandsChar(s, i, text, 0);
    if ref == NoRef {
      NumberIsRead(s, i, text, -1);
    } else {
      var id := text[1..|text| - 1];
      assert text == "{" + (id + "}");
      ReferenceIsRead(s, i, id, ref, next);
    }
  }

  lemma ReferenceIsRead(s: string, i: nat, id: string, ref: ArgRef, next: int)
    requires Stands(s, i, "{" + (id + "}")) && Countable("{" + (id + "}"), ref, next)
    requires match ref
      case NoRef => false
      case RefName(name) => id == name && IsIdentifier(name)
      case RefIndex(k) => id == "" || IsIndex(id, k)
    ensures i + 1 < |s| && s[i] == '{' && i + 1 + |id| < |s| && s[i + 1 + |id|] == '}'
    ensures var r := ReadArgId(s, i + 1);
      && r.Id? && r.end == i + 1 + |id|
      && ResolveRef(r.id, r.end, next) == Good(ref, r.end, Counted("{" + (id + "}"), ref, next))
  {
    hide ReadArgId, IsIndex, Stands;
    StandsChar(s, i, "{" + (id + "}"), 0);
    StandsSplit(s, i, "{", id + "}");
    StandsSplit(s, i + 1, id, "}");
    if id == "" {
      assert "{" + (id + "}") == "{}";
      ReadAuto(s, i + 1);
    } else {
      assert ("{" + (id + "}")) != "{}";
      match ref
      case RefName(name) => NameIsRead(s, i + 1, name);
      case RefIndex(k) => IdIsRead(s, i + 1, id, k);
    }
  }

  lemma NumberIsRead(s: string, i: nat, text: string, errorValue: int)
    requires text != "" && AllDigits(text) && Stands(s, i, text) && (i + |text| < |s| ==> !IsDigit(s[i + |text|]))
    ensures DigitsEnd(s, i) == i + |text|
    ensures NonnegativeInt(s, i, errorValue)
         == if |text| <= 10 && Decimal(text) <= 2147483647 then Decimal(text) else errorValue
  {
    hide Decimal;
    forall k | i <= k < i + |text|
      ensures IsDigit(s[k])
    {
      StandsChar(s, i, text, k - i);
    }
    DigitsEndAt(s, i, i + |text|);
  }

  lemma IdIsRead(s: string, i: nat, id: string, k: int)
    requires IsIndex(id, k) && Stands(s, i, id) && i + |id| < |s| && s[i + |id|] == '}'
    ensures k >= 0 && ReadArgId(s, i) == Id(ByIndex(k), i + |id|)
  {
    hide NonnegativeInt, DigitsEnd, Decimal, Stands, NameEnd;
    NumberIsRead(s, i, id, INT_MAX);
    StandsChar(s, i, id, 0);
    LoneZero(id);
  }

  lemma LoneZero(id: string)
    ensures |id| == 1 && id[0] == '0' ==> Decimal(id) == 0
  {
    if |id| == 1 {
      assert id == [] + [id[0]];
      DecimalSnoc([], id[0]);
    }
  }

  /** Nothing has been read of the parts from this one on. */
  predicate Unread(specs: Specs, part: Part)
  {
    && (Rank(part) < 5 ==> specs.width == 0 && specs.widthRef == NoRef)
    && (Rank(part) < 6 ==> specs.precision == -1 && specs.precisionRef == NoRef)
  }

  /** How a piece starts. */
  lemma FirstChars(p: Pieces, t: ArgType, part: Part, a: State, b: State)
    requires IsFirst(p, part) && Explains(p, t, a, b)
    ensures part == SignPart ==>
      |p.sign| == 1 && p.sign[0] in {'+', '-', ' '} && SignOf(p.sign[0]) == b.specs.sign && (t.SignedInt? || t.Float?)
    ensures part == HashPart ==> p.hash == "#" && IsArithmetic(t)
    ensures part == ZeroPart ==> p.zero == "0" && IsArithmetic(t)
    ensures part == PrecisionPart ==> p.precision[0] == '.' && (t.Float? || t.String? || t.CString?)
    ensures part == LocalePart ==> p.locale == "L" && IsArithmetic(t)
  {
    hide IsDynamic, LetterAllowed, IsFill, Countable, Counted;
  }

  /** What is behind a width or precision does not continue it. */
  lemma RestStarts(s: string, i: nat, e: nat, p: Pieces, t: ArgType, a: State, b: State)
    requires EmptyUpTo(p, WidthPart) && Spells(s, i, e, p, t, a, b) && e < |s| && s[e] == '}'
    ensures i < |s| && !IsDigit(s[i]) && s[i] != '{'
    ensures p.precision == "" && (p.locale != "" || p.letter != "") ==> s[i] != '}'
  {
    hide IsDynamic, IsFill, Countable, Counted;
    var text := Joined(p);
    if text == "" {
      assert i == e && |p.locale| == 0 && |p.letter| == 0;
    } else {
      assert s[i] == s[i..e][0] == text[0];
    }
  }

  lemma WidthIsTaken(s: string, i: nat, e: nat, p: Pieces, t: ArgType, from: Part, a: State, b: State)
    requires IsFirst(p, WidthPart) && Rank(from) < 5 && Unread(a.specs, from)
    requires Spells(s, i, e, p, t, a, b) && e < |s| && s[e] == '}'
    ensures i < |s| && ((IsDigit(s[i]) && s[i] != '0') || s[i] == '{')
    ensures var m := Behind(p, WidthPart, a, b);
      WidthTurn(s, i, a.specs, from, a.next) == More(m.specs, i + |p.width|, WidthPart, m.next)
  {
    hide IsDynamic, ParseDynamicSpec, Countable, Counted, LetterAllowed, IsFill, Joined, ExplainsFront;
    RestSpells(s, i, e, p, t, WidthPart, a, b);
    RestExplains(p, t, WidthPart, a, b);
    RestStarts(s, i + |p.width|, e, WithPiece(p, WidthPart, ""), t, Behind(p, WidthPart, a, b), b);
    DynamicIsRead(s, i, p.width, b.specs.width, b.specs.widthRef, 0, a.next);
  }

  lemma PrecisionIsTaken(s: string, i: nat, e: nat, p: Pieces, t: ArgType, from: Part, a: State, b: State)
    requires IsFirst(p, PrecisionPart) && Rank(from) < 6 && Unread(a.specs, from)
    requires Spells(s, i, e, p, t, a, b) && e < |s| && s[e] == '}'
    ensures i < |s|
    ensures var m := Behind(p, PrecisionPart, a, b);
      PrecisionTurn(s, i, t, a.specs, from, a.next) == More(m.specs, i + |p.precision|, PrecisionPart, m.next)
  {
    hide IsDynamic, Countable, Counted, Joined, Explains, ParseDynamicSpec, IsArithmeticType;
    RestSpells(s, i, e, p, t, PrecisionPart, a, b);
    RestExplains(p, t, PrecisionPart, a, b);
    RestStarts(s, i + |p.precision|, e, WithPiece(p, PrecisionPart, ""), t, Behind(p, PrecisionPart, a, b), b);
    PrecisionExplained(p, t, a, b);
    StandsSplit(s, i, ".", Places(p));
    if Places(p) == "" {
      NothingCounted();
      LeftOut(s, i + 1, Dynamic(-1, NoRef), a.next);
    } else {
      DynamicIsRead(s, i + 1, Places(p), b.specs.precision, b.specs.precisionRef, -1, a.next);
    }
  }

  lemma PrecisionExplained(p: Pieces, t: ArgType, a: State, b: State)
    requires IsFirst(p, PrecisionPart) && Explains(p, t, a, b) && a.specs.precision == -1
    ensures p.precision == "." + Places(p) && t in {Float, String, CString}
    ensures Places(p) != "" ==>
      && IsDynamic(Places(p), b.specs.precision, b.specs.precisionRef)
      && (b.specs.precisionRef != NoRef ==> b.specs.precision == -1)
      && Countable(Places(p), b.specs.precisionRef, a.next)
  {
    hide IsDynamic, Countable, Counted, LetterAllowed, ExplainsFront;
    NothingCounted();
  }

  /** Neither a number nor a reference. */
  lemma LeftOut(s: string, i: nat, d: Dynamic, next: int)
    requires i < |s| && !IsDigit(s[i]) && s[i] != '{'
    ensures ParseDynamicSpec(s, i, d, next) == Good(d, i, next)
  {}

  /** The turn at the first piece takes it. */
  lemma FirstIsTaken(s: string, i: nat, e: nat, p: Pieces, t: ArgType, from: Part, part: Part, a: State, b: State)
    requires IsFirst(p, part) && part != AlignPart && Rank(from) < Rank(part) && Unread(a.specs, from)
    requires Spells(s, i, e, p, t, a, b) && e < |s| && s[e] == '}'
    ensures var m := Behind(p, part, a, b);
      && i < |s| && Unread(m.specs, part)
      && SpecTurn(s, i, s[i], t, a.specs, from, a.next) == More(m.specs, i + |Piece(p, part)|, part, m.next)
  {
    hide SpecTurn, WidthTurn, PrecisionTurn, Explains, IsArithmetic, Joined;
    RestSpells(s, i, e, p, t, part, a, b);
    FirstChars(p, t, part, a, b);
    var x := Piece(p, part);
    assert s[i] == s[i..i + |x|][0];
    TurnAt(s, i, t, a.specs, from, a.next);
    if part == WidthPart {
      WidthIsTaken(s, i, e, p, t, from, a, b);
    } else if part == PrecisionPart {
      PrecisionIsTaken(s, i, e, p, t, from, a, b);
    }
  }

  /** What is left at the end: the brace, or the letter in front of it. */
  lemma LastIsTaken(s: string, i: nat, e: nat, p: Pieces, t: ArgType, from: Part, a: State, b: State)
    requires FirstPart(p) == Start && Spells(s, i, e, p, t, a, b) && e < |s| && s[e] == '}'
    ensures i < |s| && SpecTurn(s, i, s[i], t, a.specs, from, a.next) == Return(b.specs, e, b.next)
  {
    hide SpecTurn, TakesLetter, IsLetter, LetterAllowed, Explains;
    LetterIsLeft(p, t, a, b);
    if p.letter == "" {
      TurnAt(s, i, t, a.specs, from, a.next);
    } else {
      assert s[i] == s[i..e][0];
      LetterTurn(s, i, t, a.specs, from, a.next);
    }
  }

  lemma LetterIsLeft(p: Pieces, t: ArgType, a: State, b: State)
    requires FirstPart(p) == Start && Explains(p, t, a, b)
    ensures Joined(p) == p.letter && |p.letter| <= 1
    ensures p.letter == "" ==> a == b
    ensures p.letter != "" ==>
      && IsLetter(p.letter[0]) && TakesLetter(t, p.letter[0])
      && b == a.(specs := a.specs.(presentation := As(p.letter[0])))
  {
    hide IsDynamic, IsFill, IsLetter, TakesLetter, LetterAllowed;
    if p.letter != "" {
      LettersMatch(p.letter[0], t);
    }
  }

  /** Piece by piece. */
  lemma {:induction false} ReadsPieces(s: string, i: nat, e: nat, p: Pieces, t: ArgType, from: Part, a: State, b: State)
    requires p.align == "" && EmptyUpTo(p, from) && Unread(a.specs, from)
    requires Spells(s, i, e, p, t, a, b) && e < |s| && s[e] == '}'
    ensures i < |s| && SpecsFrom(s, i, s[i], t, a.specs, from, a.next) == Good(b.specs, e, b.next)
    decreases e - i
  {
    hide SpecTurn, Explains, Joined, Unread, Behind, WithPiece;
    var part := FirstPart(p);
    if part == Start {
      LastIsTaken(s, i, e, p, t, from, a, b);
    } else {
      FirstIsTaken(s, i, e, p, t, from, part, a, b);
      RestSpells(s, i, e, p, t, part, a, b);
      RestExplains(p, t, part, a, b);
      StillNoAlign(p, part);
      ReadsPieces(s, i + |Piece(p, part)|, e, WithPiece(p, part, ""), t, part, Behind(p, part, a, b), b);
    }
  }

  lemma StillNoAlign(p: Pieces, part: Part)
    requires p.align == ""
    ensures WithPiece(p, part, "").align == ""
  {}

  lemma UnalignedJoin(a: string, b: string)
    requires Unaligned(a) && Unaligned(b)
    ensures Unaligned(a + b)
  {}

  lemma DynamicIsUnaligned(text: string, value: int, ref: ArgRef)
    requires IsDynamic(text, value, ref)
    ensures Unaligned(text)
  {
    hide Decimal;
    if ref != NoRef {
      var id := text[1..|text| - 1];
      assert text == ['{'] + id + ['}'];
      assert Unaligned(id);
    }
  }

  /** Behind the alignment no piece has an alignment character. */
  lemma RestIsUnaligned(p: Pieces, t: ArgType, a: State, b: State)
    requires p.align == "" && Explains(p, t, a, b)
    ensures Unaligned(Joined(p))
  {
    hide Explains, Unaligned;
    EachIsUnaligned(p, t, a, b);
    var l := p.locale + p.letter;
    UnalignedJoin(p.locale, p.letter);
    UnalignedJoin(p.precision, l);
    UnalignedJoin(p.width, p.precision + l);
    UnalignedJoin(p.zero, p.width + (p.precision + l));
    UnalignedJoin(p.hash, p.zero + (p.width + (p.precision + l)));
    UnalignedJoin(p.sign, p.hash + (p.zero + (p.width + (p.precision + l))));
    NothingInFront(p.sign + (p.hash + (p.zero + (p.width + (p.precision + l)))));
  }

  lemma EachIsUnaligned(p: Pieces, t: ArgType, a: State, b: State)
    requires Explains(p, t, a, b)
    ensures Unaligned(p.sign) && Unaligned(p.hash) && Unaligned(p.zero) && Unaligned(p.width)
    ensures Unaligned(p.precision) && Unaligned(p.locale) && Unaligned(p.letter)
  {
    hide IsDynamic, IsFill, Countable, Counted, IsArithmeticType, Unaligned, LetterAllowed;
    OneUnaligned(p.sign);
    OneUnaligned(p.hash);
    OneUnaligned(p.zero);
    OneUnaligned(p.locale);
    if p.letter != "" {
      LetterUnaligned(p.letter[0], t);
    }
    OneUnaligned(p.letter);
    OneUnaligned("");
    OneUnaligned(".");
    if p.width != "" {
      DynamicIsUnaligned(p.width, b.specs.width, b.specs.widthRef);
    }
    if p.precision != "" {
      if Places(p) != "" {
        DynamicIsUnaligned(Places(p), b.specs.precision, b.specs.precisionRef);
      }
      UnalignedJoin(".", Places(p));
      assert p.precision == "." + Places(p);
    }
  }

  lemma OneUnaligned(text: string)
    requires |text| <= 1 && (text != "" ==> ParseAlign(text[0]) == NoAlign)
    ensures Unaligned(text)
  {}

  lemma LetterUnaligned(c: char, t: ArgType)
    requires LetterAllowed(c, t)
    ensures ParseAlign(c) == NoAlign
  {}

  /** The turn at fill and alignment. */
  lemma AlignIsTaken(s: string, i: nat, e: nat, p: Pieces, t: ArgType, next: int, to: State)
    requires p.align != "" && Spells(s, i, e, p, t, State(NO_SPECS, next), to) && e < |s| && s[e] == '}'
    ensures i + |p.align| < |s| && i < |s|
    ensures SpecTurn(s, i, FirstChar(s, i), t, NO_SPECS, Start, next)
         == More(Behind(p, AlignPart, State(NO_SPECS, next), to).specs, i + |p.align|, AlignPart, next)
  {
    hide SpecTurn, FirstChar, Joined, ExplainsBack, FillFits, CodePointLength;
    var a, rest, j := State(NO_SPECS, next), WithPiece(p, AlignPart, ""), i + |p.align|;
    RestSpells(s, i, e, p, t, AlignPart, a, to);
    RestIsUnaligned(rest, t, Behind(p, AlignPart, a, to), to);
    assert s[j] == if j < e then s[j..e][0] else '}';
    FillIsFill(to.specs.fill);
    if p.align == AlignChar(to.specs.align) {
      assert [s[i]] == s[i..j];
      AlignIsRead(s, i, t, to.specs.align, next);
    } else {
      FillIsRead(s, i, t, to.specs.fill, to.specs.align, next);
    }
  }

  lemma FillIsFill(fill: string)
    ensures FillFits(fill) <==> IsFill(fill)
  {}

  /** A spelled text in front of a closing brace is accepted, and means what its pieces say. */
  lemma SpelledIsAccepted(s: string, b: nat, e: nat, p: Pieces, t: ArgType, next: int, to: State)
    requires Spells(s, b, e, p, t, State(NO_SPECS, next), to) && e < |s| && s[e] == '}'
    ensures SpecsAt(s, b, t, next) == Good(to.specs, e, to.next)
  {
    hide SpecTurn, Explains, Joined, Behind, WithPiece, FirstChar, Unread, SpecsFrom;
    var a := State(NO_SPECS, next);
    if p.align == "" {
      ReadsPieces(s, b, e, p, t, Start, a, to) by {
        StartIsUnread(p);
      }
      PlainStart(s, b, e, p, t, next, to);
    } else {
      var rest, m := WithPiece(p, AlignPart, ""), Behind(p, AlignPart, a, to);
      AlignIsTaken(s, b, e, p, t, next, to);
      RestSpells(s, b, e, p, t, AlignPart, a, to);
      RestExplains(p, t, AlignPart, a, to);
      AlignBehind(p, a, to);
      Continues(s, b, FirstChar(s, b), t, NO_SPECS, Start, next);
      ReadsPieces(s, b + |p.align|, e, rest, t, AlignPart, m, to);
    }
  }

  lemma StartIsUnread(p: Pieces)
    ensures EmptyUpTo(p, Start) && Unread(NO_SPECS, Start)
  {}

  lemma AlignBehind(p: Pieces, a: State, b: State)
    requires a.specs == NO_SPECS
    ensures Unread(Behind(p, AlignPart, a, b).specs, AlignPart) && Behind(p, AlignPart, a, b).next == a.next
    ensures WithPiece(p, AlignPart, "").align == ""
  {}

  /** Without an alignment it does not matter which character is looked at first. */
  lemma PlainStart(s: string, b: nat, e: nat, p: Pieces, t: ArgType, next: int, to: State)
    requires p.align == "" && Spells(s, b, e, p, t, State(NO_SPECS, next), to) && e < |s| && s[e] == '}'
    ensures b < |s| && SpecsFrom(s, b, FirstChar(s, b), t, NO_SPECS, Start, next)
                    == SpecsFrom(s, b, s[b], t, NO_SPECS, Start, next)
  {
    hide SpecTurn, Explains, Joined;
    RestIsUnaligned(p, t, State(NO_SPECS, next), to);
    if b < e {
      assert s[b + 1] == if b + 1 < e then s[b..e][1] else '}';
    } else {
      TurnAt(s, b, t, NO_SPECS, Start, next);
      DefaultTurn(s, b, '\0', t, NO_SPECS, Start, next);
    }
  }

  /**
    Exactly the texts of such pieces are read up to a closing brace, each as the specification it spells
    and with the context it leads to.
   */
  lemma AcceptedTexts(s: string, b: nat, e: nat, t: ArgType, next: int, to: State)
    requires b <= e < |s| && s[e] == '}'
    ensures SpecsAt(s, b, t, next) == Good(to.specs, e, to.next) <==>
      exists p :: Spells(s, b, e, p, t, State(NO_SPECS, next), to)
  {
    hide SpecsAt, Spells;
    if SpecsAt(s, b, t, next) == Good(to.specs, e, to.next) {
      var p := AcceptedIsSpelled(s, b, t, next);
    }
    forall p | Spells(s, b, e, p, t, State(NO_SPECS, next), to)
      ensures SpecsAt(s, b, t, next) == Good(to.specs, e, to.next)
    {
      SpelledIsAccepted(s, b, e, p, t, next, to);
    }
  }

  // ---- The text of a specification

  function PiecesOf(sp: Specs, auto: bool): Pieces
  {
    Pieces(AlignText(sp), SignText(sp), if sp.alt then "#" else "", if sp.align == Numeric then "0" else "",
           WidthText(sp, auto), PrecisionText(sp, auto), if sp.localized then "L" else "", LetterText(sp))
  }

  lemma TextIsPieces(sp: Specs, auto: bool)
    ensures TextOf(sp, auto) == Joined(PiecesOf(sp, auto)) + "}"
  {
    hide AlignText, SignText, WidthText, PrecisionText, LetterText;
  }

  lemma NumeralFits(n: nat)
    requires n <= INT_MAX
    ensures 0 < |Numeral(n)| <= 10 && AllDigits(Numeral(n)) && Decimal(Numeral(n)) == n
    ensures Numeral(n)[0] == '0' <==> n == 0
    ensures n == 0 ==> |Numeral(n)| == 1
  {
    NumeralDenotes(n);
    hide Decimal;
    NumeralParses(n, "", -1);
    assert Numeral(n) + "" == Numeral(n);
    ZeroIsShort(n);
  }

  lemma DynamicTextIs(value: int, ref: ArgRef, none: int, next: int, auto: bool)
    requires RefFits(value, none, ref) && RefFollows(ref, auto, next) && (ref == NoRef ==> value >= 0)
    ensures var text := DynamicText(value, ref, auto);
      && IsDynamic(text, value, ref)
      && Countable(text, ref, next) && Counted(text, ref, next) == NextAfter(ref, auto, next)
      && text != "" && (ref == NoRef ==> (text[0] == '0' <==> value == 0)) && (ref != NoRef ==> text[0] == '{')
  {
    hide Numeral, Decimal, AllDigits;
    match ref
    case NoRef => NumeralFits(value);
    case RefName(name) => assert ("{" + (name + "}"))[1..|name| + 1] == name;
    case RefIndex(k) =>
      var id := RefText(ref, auto);
      assert ("{" + (id + "}"))[1..|id| + 1] == id;
      if !auto {
        NumeralFits(k);
      }
  }

  lemma FrontExplains(sp: Specs, t: ArgType, auto: bool)
    requires Fits(sp, t)
    ensures ExplainsFront(PiecesOf(sp, auto), t, NO_SPECS, sp)
  {
    hide WidthText, PrecisionText, LetterText, RefFits, IsFill, FillFits, HasPrecision, TakesLetter, IsLetter;
    FillIsFill(sp.fill);
  }

  lemma BackExplains(sp: Specs, t: ArgType, next: int, auto: bool)
    requires Fits(sp, t) && Follows(sp, auto, next)
    ensures ExplainsBack(PiecesOf(sp, auto), t, State(NO_SPECS, next), State(sp, After(sp, auto, next)))
    ensures PiecesOf(sp, auto).precision != "."
  {
    hide IsDynamic, DynamicText, Countable, Counted, LetterAllowed, FillFits, AlignText, SignText, TakesLetter,
         IsLetter, RefFollows, NextAfter;
    NothingCounted();
    NoRefStays(auto);
    if sp.width != 0 || sp.widthRef != NoRef {
      DynamicTextIs(sp.width, sp.widthRef, 0, next, auto);
    }
    if HasPrecision(sp) {
      DynamicTextIs(sp.precision, sp.precisionRef, -1, NextAfter(sp.widthRef, auto, next), auto);
    }
    if sp.presentation.As? {
      LettersMatch(sp.presentation.letter, t);
    }
  }

  lemma NoRefStays(auto: bool)
    ensures forall n :: NextAfter(NoRef, auto, n) == n
  {}

  /** Every specification that fits a type and the context is what its text is read as, wherever the text stands. */
  lemma SpecRoundTrip(s: string, i: nat, t: ArgType, sp: Specs, next: int, auto: bool)
    requires Fits(sp, t) && Follows(sp, auto, next) && Stands(s, i, TextOf(sp, auto))
    ensures SpecsAt(s, i, t, next) == Good(sp, i + |TextOf(sp, auto)| - 1, After(sp, auto, next))
  {
    hide Follows, After, SpecsAt, Fits, ExplainsFront, ExplainsBack, Joined, PiecesOf, TextOf;
    var p := PiecesOf(sp, auto);
    TextIsPieces(sp, auto);
    FrontExplains(sp, t, auto);
    BackExplains(sp, t, next, auto);
    StandsSplit(s, i, Joined(p), "}");
    SpelledIsAccepted(s, i, i + |Joined(p)|, p, t, next, State(sp, After(sp, auto, next)));
  }

  // ---- Which specifications, for which type

  /** A presentation letter is accepted for these types. */
  lemma LetterAccepted(c: char, t: ArgType, next: int)
    ensures Accepted(NO_SPECS.(presentation := As(c)), t, next) <==>
      || (c in "doxXbBc" && t in {SignedInt, UnsignedInt, Bool, Character})
      || (c in "aAeEfFgG" && t == Float)
      || (c == 's' && t in {Bool, String, CString})
      || (c == 'p' && t in {Pointer, CString})
      || (c == '?' && t in {Character, String, CString})
  {
    hide Accepted;
    AcceptedIffFits(NO_SPECS.(presentation := As(c)), t, next);
  }

  predicate IsAmount(value: int, none: int, ref: ArgRef)
  {
    if ref == NoRef then none <= value <= 2147483647
    else value == none && (ref.RefName? ==> IsIdentifier(ref.name))
  }

  /** The specifications the parser accepts for a type are exactly those that fit. */
  lemma AcceptedIffFits(sp: Specs, t: ArgType, next: int)
    ensures Accepted(sp, t, next) <==> Fits(sp, t) && (Follows(sp, true, next) || Follows(sp, false, next))
  {
    hide SpecsAt, Fits, Follows, TextOf;
    forall s: string, b: nat | b <= |s| && SpecsAt(s, b, t, next).Good? && SpecsAt(s, b, t, next).value == sp
      ensures Fits(sp, t) && (Follows(sp, true, next) || Follows(sp, false, next))
    {
      AcceptedFits(s, b, t, next);
    }
    if Fits(sp, t) && (Follows(sp, true, next) || Follows(sp, false, next)) {
      var auto := Follows(sp, true, next);
      var text := TextOf(sp, auto);
      assert text[0..|text|] == text;
      SpecRoundTrip(text, 0, t, sp, next, auto);
    }
  }

  /** All of them: what is accepted of each part depends on the type like this, and on nothing else. */
  lemma AcceptedByCharacters(sp: Specs, t: ArgType, next: int)
    ensures Accepted(sp, t, next) <==>
      && (sp.sign != NoSign ==> t in {SignedInt, Float})
      && (sp.alt || sp.localized || sp.align == Numeric ==> t in {SignedInt, UnsignedInt, Bool, Character, Float})
      && (sp.precision != -1 || sp.precisionRef != NoRef ==> t in {Float, String, CString})
      && (sp.presentation.As? ==> LetterAllowed(sp.presentation.letter, t))
      && (sp.align == NoAlign ==> sp.fill == " ") && (sp.align == Numeric ==> sp.fill == "0") && IsFill(sp.fill)
      && IsAmount(sp.width, 0, sp.widthRef) && IsAmount(sp.precision, -1, sp.precisionRef)
      && (CountsUp(sp, next) || IsNumbered(sp, next))
  {
    hide Accepted, TakesLetter, IsLetter, CodePointLength, IsNameChar;
    AcceptedIffFits(sp, t, next);
    PartsByCharacters(sp, t);
  }

  lemma PartsByCharacters(sp: Specs, t: ArgType)
    ensures sp.presentation.As? ==>
      var c := sp.presentation.letter; IsLetter(c) && TakesLetter(t, c) <==> LetterAllowed(c, t)
    ensures FillFits(sp.fill) <==> IsFill(sp.fill)
    ensures forall name :: IsName(name) <==> IsIdentifier(name)
  {
    if sp.presentation.As? {
      LettersMatch(sp.presentation.letter, t);
    }
  }

  /** Or any numbers, when none has been counted. */
  predicate IsNumbered(sp: Specs, next: int)
  {
    && (sp.widthRef.RefIndex? ==> next <= 0 && 0 <= sp.widthRef.index <= 2147483647)
    && (sp.precisionRef.RefIndex? ==> next <= 0 && 0 <= sp.precisionRef.index <= 2147483647)
  }
}
