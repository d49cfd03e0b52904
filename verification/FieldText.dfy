/** The text of a replacement field, and what running it writes. */
module FieldText {
  import opened Decimals
  import opened FormatCompile
  import opened FormatSpecs
  import opened FormatString
  import opened IntegerText
  import opened SpecLanguage
  import opened SpecText
  import opened Texts

  /** The field of the k-th argument, numbered or left to count up. */
  function PlainText(k: nat, auto: bool): string
  {
    "{" + (RefText(RefIndex(k), auto) + "}")
  }

  function TextOfField(k: nat, sp: Specs, auto: bool): string
  {
    "{" + (RefText(RefIndex(k), auto) + (":" + TextOf(sp, auto)))
  }

  /** Whether the context allows the field's id, and the context behind it. */
  predicate IdFollows(k: nat, auto: bool, next: int)
  {
    RefFollows(RefIndex(k), auto, next)
  }

  function AfterId(k: nat, auto: bool, next: int): int
  {
    NextAfter(RefIndex(k), auto, next)
  }

  /** Where the field's id ends, and the argument it asks for. */
  lemma FieldStarts(s: string, p: nat, k: nat, auto: bool, rest: string, st: Run)
    requires IdFollows(k, auto, st.next) && Stands(s, p, "{" + (RefText(RefIndex(k), auto) + rest))
    requires |rest| > 0 && (rest[0] == '}' || rest[0] == ':')
    ensures var id, e := if auto then Auto else ByIndex(k), p + 1 + |RefText(RefIndex(k), auto)|;
      && p + 1 < |s| && s[p] == '{' && (if auto then s[p + 1] == rest[0] else IsDigit(s[p + 1]))
      && ReadArgId(s, p + 1) == Id(id, e) && e < |s| && s[e] == rest[0] && Stands(s, e, rest)
      && OnArgId(st, id) == Arg(k, Run(st.out, AfterId(k, auto, st.next)))
  {
    hide Numeral, ReadArgId, Stands;
    var text := RefText(RefIndex(k), auto);
    StandsSplit(s, p, "{", text + rest);
    StandsSplit(s, p + 1, text, rest);
    StandsChar(s, p, "{", 0);
    if auto {
      ReadAuto(s, p + 1);
    } else {
      IndexIsRead(s, p + 1, k);
    }
  }

  /** A plain field writes its argument, wherever it stands. */
  lemma PlainIsWritten<V>(f: Formatting<V>, args: seq<Argument<V>>, s: string, p: nat, k: nat, auto: bool, st: Run)
    requires k < |args| && IdFollows(k, auto, st.next) && Stands(s, p, PlainText(k, auto))
    requires Sound(FormatHandler(f, args))
    ensures p < |s|
    ensures ParseReplacementField(FormatHandler(f, args), s, p, st)
         == FieldEnd(p + |PlainText(k, auto)|, Run(st.out + f.write(args[k]), AfterId(k, auto, st.next)))
  {
    hide Numeral, ReadArgId, Sound, RefText, AfterId, IdFollows, Stands;
    FieldStarts(s, p, k, auto, "}", st);
  }

  /** A character, not written as an integer, takes no sign, # or 0. */
  predicate CharTypeRefuses(t: ArgType, sp: Specs)
  {
    && t == Character && LetterText(sp) in {"", "c", "?"}
    && var p := PiecesOf(sp, true); p.sign != "" || p.hash != "" || p.zero != ""
  }

  lemma TypeRefusesMeans(t: ArgType, sp: Specs)
    ensures CharSpecsFit(t, sp) <==> !CharTypeRefuses(t, sp)
  {}

  predicate CharRefuses<V>(arg: Argument<V>, sp: Specs)
  {
    arg.Other? && CharTypeRefuses(arg.kind, sp)
  }

  lemma CharRefusesMeans<V>(arg: Argument<V>, sp: Specs)
    ensures CharSpecsFit(TypeOf(arg), sp) <==> !CharRefuses(arg, sp)
  {
    TypeRefusesMeans(TypeOf(arg), sp);
  }

  /** Only signed numbers take a sign. */
  lemma SignNeedsSigned<V>(arg: Argument<V>, next: int)
    ensures Accepted(NO_SPECS.(sign := Plus), TypeOf(arg), next) <==>
      if arg.Number? then arg.signed else arg.kind in {SignedInt, Float}
  {
    hide Accepted;
    AcceptedByCharacters(NO_SPECS.(sign := Plus), TypeOf(arg), next);
  }

  /** The argument's text behind what has been written, or its error. */
  function Continued(out: string, w: Written, before: int, after: int): Outcome<Run>
  {
    match w
    case Written(text) => Done(Run(out + text, after))
    case Unwritable(message) => Aborted(Run(out, before), message)
  }

  /** A field is read up to its end and written as its specification is, wherever it stands. */
  lemma FieldWrites<V>(f: Formatting<V>, args: seq<Argument<V>>, s: string, p: nat, k: nat, sp: Specs, auto: bool,
                       st: Run)
    requires k < |args| && IdFollows(k, auto, st.next) && Fits(sp, TypeOf(args[k]))
    requires Follows(sp, auto, AfterId(k, auto, st.next)) && Stands(s, p, TextOfField(k, sp, auto))
    requires Sound(FormatHandler(f, args))
    ensures p < |s|
    ensures var next := AfterId(k, auto, st.next);
      ParseReplacementField(FormatHandler(f, args), s, p, st)
      == EndField(Continued(st.out, WriteField(f, args, k, sp), next, After(sp, auto, next)),
                  p + |TextOfField(k, sp, auto)|)
  {
    hide Numeral, ReadArgId, Sound, SpecsAt, TextOf, Fits, FillDynamic, WriteArgument, RefText, AfterId, IdFollows,
         Follows, After, Stands;
    var rest, e := ":" + TextOf(sp, auto), p + 1 + |RefText(RefIndex(k), auto)|;
    FieldStarts(s, p, k, auto, rest, st);
    StandsSplit(s, e, ":", TextOf(sp, auto));
    SpecRoundTrip(s, e + 1, TypeOf(args[k]), sp, AfterId(k, auto, st.next), auto);
    BraceEnds(s, e + 1, sp, auto);
  }

  lemma BraceEnds(s: string, i: nat, sp: Specs, auto: bool)
    requires Stands(s, i, TextOf(sp, auto))
    ensures var n := |TextOf(sp, auto)|; n > 0 && i + n <= |s| && s[i + n - 1] == '}'
  {
    hide AlignText, SignText, WidthText, PrecisionText, LetterText;
    var n := |TextOf(sp, auto)| - 1;
    assert TextOf(sp, auto)[n] == '}';
    StandsChar(s, i, TextOf(sp, auto), n);
  }

  /**
    A field with a specification writes its argument by that specification, width and precision being
    those given or those of the arguments referred to, or fails as writing it does.
   */
  lemma FieldIsWritten<V>(f: Formatting<V>, args: seq<Argument<V>>, s: string, p: nat, k: nat, sp: Specs, auto: bool,
                          st: Run, w: int, q: int)
    requires k < |args| && IdFollows(k, auto, st.next) && Fits(sp, TypeOf(args[k]))
    requires Follows(sp, auto, AfterId(k, auto, st.next)) && Stands(s, p, TextOfField(k, sp, auto))
    requires Amounts(args, sp.widthRef, sp.width, w) && Amounts(args, sp.precisionRef, sp.precision, q)
    requires Sound(FormatHandler(f, args))
    ensures p < |s|
    ensures var next, end := AfterId(k, auto, st.next), p + |TextOfField(k, sp, auto)|;
      ParseReplacementField(FormatHandler(f, args), s, p, st) ==
      if CharRefuses(args[k], sp) then FieldAborts(Run(st.out, next), "invalid format specifier for char")
      else
        match f.writeSpecs(args[k], sp.(width := w, precision := q))
        case Written(text) => FieldEnd(end, Run(st.out + text, After(sp, auto, next)))
        case Unwritable(message) => FieldAborts(Run(st.out, next), message)
  {
    hide Sound, Stands, Fits, Follows, After, IdFollows, AfterId, TextOfField, ParseReplacementField, CharRefuses,
         CharSpecsFit, Amounts, WriteField;
    FieldWrites(f, args, s, p, k, sp, auto, st);
    WritesAmounts(f, args, k, sp, w, q);
    CharRefusesMeans(args[k], sp);
  }

  /** A width or precision that no argument gives ends the run; the width is looked at first. */
  lemma FieldFails<V>(f: Formatting<V>, args: seq<Argument<V>>, s: string, p: nat, k: nat, sp: Specs, auto: bool,
                      st: Run, w: int, message: string)
    requires k < |args| && IdFollows(k, auto, st.next) && Fits(sp, TypeOf(args[k]))
    requires Follows(sp, auto, AfterId(k, auto, st.next)) && Stands(s, p, TextOfField(k, sp, auto))
    requires || Refuses(args, sp.widthRef, "width", message)
             || (Amounts(args, sp.widthRef, sp.width, w) && Refuses(args, sp.precisionRef, "precision", message))
    requires Sound(FormatHandler(f, args))
    ensures p < |s|
    ensures ParseReplacementField(FormatHandler(f, args), s, p, st)
         == FieldAborts(Run(st.out, AfterId(k, auto, st.next)), message)
  {
    hide Sound, Stands, Fits, Follows, After, IdFollows, AfterId, TextOfField, ParseReplacementField, Amounts, Refuses,
         WriteField;
    FieldWrites(f, args, s, p, k, sp, auto, st);
    RefusesAmounts(f, args, k, sp, w, message);
  }

  /** The whole way: a field by itself, as a format string. */
  lemma FieldAlone<V>(f: Formatting<V>, args: seq<Argument<V>>, k: nat, sp: Specs, auto: bool, w: int, q: int)
    requires k < |args| && IdFollows(k, auto, 0) && Fits(sp, TypeOf(args[k])) && Follows(sp, auto, AfterId(k, auto, 0))
    requires Amounts(args, sp.widthRef, sp.width, w) && Amounts(args, sp.precisionRef, sp.precision, q)
    ensures var next := AfterId(k, auto, 0);
      Interpreted(f, args, TextOfField(k, sp, auto)) ==
      if CharRefuses(args[k], sp) then Aborted(Run("", next), "invalid format specifier for char")
      else
        match f.writeSpecs(args[k], sp.(width := w, precision := q))
        case Written(text) => Done(Run(text, After(sp, auto, next)))
        case Unwritable(message) => Aborted(Run("", next), message)
  {
    hide Sound, Fits, Follows, After, IdFollows, AfterId, TextOfField, CharRefuses, CharSpecsFit, Amounts, WriteField,
         Interpreted;
    AloneWrites(f, args, k, sp, auto);
    WritesAmounts(f, args, k, sp, w, q);
    CharRefusesMeans(args[k], sp);
  }

  lemma AloneWrites<V>(f: Formatting<V>, args: seq<Argument<V>>, k: nat, sp: Specs, auto: bool)
    requires k < |args| && IdFollows(k, auto, 0) && Fits(sp, TypeOf(args[k])) && Follows(sp, auto, AfterId(k, auto, 0))
    ensures var next := AfterId(k, auto, 0);
      Interpreted(f, args, TextOfField(k, sp, auto)) ==
      match WriteField(f, args, k, sp)
      case Written(text) => Done(Run(text, After(sp, auto, next)))
      case Unwritable(message) => Aborted(Run("", next), message)
  {
    hide Numeral, Sound, TextOfField, Fits, ParseReplacementField, WriteField, Interpret, AfterId, IdFollows, Follows,
         After;
    var h, s, next := FormatHandler(f, args), TextOfField(k, sp, auto), AfterId(k, auto, 0);
    FormatHandlerSound(f, args);
    assert s[0..|s|] == s;
    FieldOpens(k, sp, auto);
    FieldWrites(f, args, s, 0, k, sp, auto, Run("", 0));
    InterpretField(h, s, 0, Run("", 0));
    match WriteField(f, args, k, sp)
    case Written(text) =>
      assert "" + text == text;
      NothingLeft(h, s, Run(text, After(sp, auto, next)));
    case Unwritable(_) =>
  }

  lemma FieldOpens(k: nat, sp: Specs, auto: bool)
    ensures |TextOfField(k, sp, auto)| > 0 && TextOfField(k, sp, auto)[0] == '{'
  {
    hide RefText, TextOf;
  }

  // ---- Compiling a field

  /** A plain field compiles to the argument it names, if there is one of that number. */
  lemma PlainCompiles(types: seq<ArgType>, k: nat, auto: bool)
    requires IdFollows(k, auto, 0)
    ensures Compile(types, PlainText(k, auto)) == if k < |types| then Ok(Field(k)) else Rejected
  {
    hide ReadArgId, RefText, Stands;
    var s, st := PlainText(k, auto), Run("", 0);
    var e := 1 + |RefText(RefIndex(k), auto)|;
    WholeStands(s);
    FieldStarts(s, 0, k, auto, "}", st);
    assert |s| == e + 1;
    IdCompiles(types, s, e, k, auto);
    if k < |types| {
      assert ParseReplacementFieldThenTail(types, s, e, k, if auto then 1 else -1) == Ok(Field(k));
    }
  }

  /** What the compiler makes of a field's id. */
  lemma IdCompiles(types: seq<ArgType>, s: string, e: nat, k: nat, auto: bool)
    requires 1 <= e < |s| && s[0] == '{' && (s[e] == '}' || s[e] == ':') && IdFollows(k, auto, 0)
    requires if auto then e == 1 else IsDigit(s[1]) && ReadArgId(s, 1) == Id(ByIndex(k), e)
    ensures Compile(types, s) ==
      if k < |types| then ParseReplacementFieldThenTail(types, s, e, k, if auto then 1 else -1) else Rejected
  {
    hide ReadArgId, ParseReplacementFieldThenTail;
  }

  /** One with a specification that fits compiles to both, but for characters that refuse it. */
  lemma FieldCompilesAlone(types: seq<ArgType>, k: nat, sp: Specs, auto: bool)
    requires IdFollows(k, auto, 0)
    requires k < |types| ==> Fits(sp, types[k]) && Follows(sp, auto, AfterId(k, auto, 0))
    ensures Compile(types, TextOfField(k, sp, auto)) ==
      if k >= |types| || CharTypeRefuses(types[k], sp) then Rejected else Ok(SpecField(k, sp))
  {
    hide ReadArgId, SpecsAt, TextOf, Fits, RefText, Follows, Stands, CharTypeRefuses, CharSpecsFit;
    var s, st, rest := TextOfField(k, sp, auto), Run("", 0), ":" + TextOf(sp, auto);
    var e := 1 + |RefText(RefIndex(k), auto)|;
    WholeStands(s);
    FieldStarts(s, 0, k, auto, rest, st);
    StandsSplit(s, e, ":", TextOf(sp, auto));
    IdCompiles(types, s, e, k, auto);
    if k < |types| {
      FromScratch(sp, auto, AfterId(k, auto, 0));
      SpecRoundTrip(s, e + 1, types[k], sp, if auto then 1 else 0, auto);
      BraceEnds(s, e + 1, sp, auto);
      FieldLength(k, sp, auto);
      TypeRefusesMeans(types[k], sp);
    }
  }

  lemma WholeStands(s: string)
    ensures Stands(s, 0, s)
  {
    assert s[0..|s|] == s;
  }

  lemma FieldLength(k: nat, sp: Specs, auto: bool)
    ensures |TextOfField(k, sp, auto)| == 2 + |RefText(RefIndex(k), auto)| + |TextOf(sp, auto)|
  {
    hide RefText, TextOf;
  }

  /** The compiler starts the context anew behind a numbered id. */
  lemma FromScratch(sp: Specs, auto: bool, next: int)
    requires Follows(sp, auto, next) && next == if auto then 1 else -1
    ensures Follows(sp, auto, if auto then 1 else 0)
  {}

  // ---- Fields that end the run

  /** An automatic id after a numbered one. */
  lemma AutomaticRefused<V>(f: Formatting<V>, args: seq<Argument<V>>, s: string, p: nat, st: Run)
    requires Stands(s, p, "{}") && st.next < 0 && Sound(FormatHandler(f, args))
    ensures p < |s|
    ensures ParseReplacementField(FormatHandler(f, args), s, p, st)
         == FieldAborts(st, "cannot switch from manual to automatic argument indexing")
  {
    hide Sound;
    StandsChar(s, p, "{}", 1);
  }

  /** A numbered id after an automatic one. */
  lemma NumberRefused<V>(f: Formatting<V>, args: seq<Argument<V>>, s: string, p: nat, k: nat, st: Run)
    requires k <= 2147483647 && Stands(s, p, PlainText(k, false)) && st.next > 0 && Sound(FormatHandler(f, args))
    ensures p < |s|
    ensures ParseReplacementField(FormatHandler(f, args), s, p, st)
         == FieldAborts(st, "cannot switch from automatic to manual argument indexing")
  {
    hide Numeral, Sound, ReadArgId, Stands;
    StandsSplit(s, p, "{", Numeral(k) + "}");
    StandsSplit(s, p + 1, Numeral(k), "}");
    IndexIsRead(s, p + 1, k);
  }

  /** A name, of which there are none. */
  lemma NameRefused<V>(f: Formatting<V>, args: seq<Argument<V>>, s: string, p: nat, name: string, st: Run)
    requires IsIdentifier(name) && Stands(s, p, "{" + (name + "}")) && Sound(FormatHandler(f, args))
    ensures p < |s|
    ensures ParseReplacementField(FormatHandler(f, args), s, p, st) == FieldAborts(st, "argument not found")
  {
    hide Sound, ReadArgId, Stands, IsName;
    StandsSplit(s, p, "{", name + "}");
    StandsSplit(s, p + 1, name, "}");
    NameIsRead(s, p + 1, name) by {
      IdentifierIsName(name);
    }
    StandsChar(s, p + 1, name, 0);
  }

  lemma IdentifierIsName(name: string)
    ensures IsIdentifier(name) <==> IsName(name)
  {}

  /** An id without an argument. */
  lemma ArgumentMissing<V>(f: Formatting<V>, args: seq<Argument<V>>, s: string, p: nat, k: nat, auto: bool,
                           rest: string, st: Run)
    requires k >= |args| && IdFollows(k, auto, st.next) && Sound(FormatHandler(f, args))
    requires Stands(s, p, "{" + (RefText(RefIndex(k), auto) + rest)) && |rest| > 0 && (rest[0] == '}' || rest[0] == ':')
    ensures p < |s|
    ensures ParseReplacementField(FormatHandler(f, args), s, p, st)
         == FieldAborts(Run(st.out, AfterId(k, auto, st.next)), "argument not found")
  {
    hide Numeral, ReadArgId, Sound, RefText, AfterId, IdFollows, Stands;
    FieldStarts(s, p, k, auto, rest, st);
  }

  /** A brace at the end, or something behind a number that is neither a closing brace nor a colon. */
  lemma BrokenField<V>(f: Formatting<V>, args: seq<Argument<V>>, s: string, p: nat, digits: string, st: Run)
    requires p < |s| && s[p] == '{' && Sound(FormatHandler(f, args))
    ensures p + 1 == |s| ==>
      ParseReplacementField(FormatHandler(f, args), s, p, st) == FieldAborts(st, "invalid format string")
    ensures var e := p + 1 + |digits|;
      && digits != "" && AllDigits(digits) && Stands(s, p + 1, digits)
      && (e < |s| ==> s[e] !in {'}', ':'} && !IsDigit(s[e]))
      ==> ParseReplacementField(FormatHandler(f, args), s, p, st) == FieldAborts(st, "invalid format string")
  {
    hide Sound, NonnegativeInt, Stands, NameEnd;
    var e := p + 1 + |digits|;
    if digits != "" && AllDigits(digits) && Stands(s, p + 1, digits) && (e < |s| ==> !IsDigit(s[e])) {
      NumberIsRead(s, p + 1, digits, 2147483647);
      StandsChar(s, p + 1, digits, 0);
      if |digits| > 1 {
        StandsChar(s, p + 1, digits, 1);
      }
    }
  }
}
