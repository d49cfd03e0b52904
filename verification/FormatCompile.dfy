/** Running a format string on arguments, compiling it first, and why both give the same output. */
module FormatCompile {
  import opened Arith
  import opened Decimals
  import opened FormatSpecs
  import opened FormatString

  // ---- Arguments and their formatting

  /** A positional argument: an integer, which may also serve as a width, or anything else built in. */
  datatype Argument<V> = Number(signed: bool, number: int) | Other(kind: ArgType, value: V)

  function TypeOf<V>(a: Argument<V>): ArgType
  {
    match a
    case Number(signed, _) => if signed then SignedInt else UnsignedInt
    case Other(kind, _) => kind
  }

  datatype Written = Written(text: string) | Unwritable(message: string)

  /** How one argument is written, without and with specifications; the two parsers share it. */
  datatype Formatting<!V> = Formatting(write: Argument<V> -> string, writeSpecs: (Argument<V>, Specs) -> Written)

  const NOT_FOUND := "argument not found"

  datatype Width = Width(value: int) | BadWidth(message: string)

  /** A width or precision taken from an argument; what names it in messages. */
  function GetDynamicSpec<V>(args: seq<Argument<V>>, ref: ArgRef, value: int, what: string): Width
  {
    match ref
    case NoRef => Width(value)
    case RefName(_) => BadWidth(NOT_FOUND)
    case RefIndex(i) =>
      if i < 0 || i >= |args| then BadWidth(NOT_FOUND)
      else if !args[i].Number? then BadWidth(what + " is not integer")
      else if args[i].number < 0 then BadWidth("negative " + what)
      else if args[i].number > INT_MAX then BadWidth("number is too big")
      else Width(args[i].number)
  }

  /** Characters take only some specifications unless they are written as integers. */
  predicate CharSpecsFit(t: ArgType, specs: Specs)
  {
    t.Character? && (specs.presentation == Default || specs.presentation == As('c') || specs.presentation == As('?'))
    ==> specs.align != Numeric && specs.sign == NoSign && !specs.alt
  }

  const BAD_CHAR := "invalid format specifier for char"

  datatype Filled = Filled(specs: Specs) | Unfilled(message: string)

  /** The specifications with their dynamic width and precision. */
  function FillDynamic<V>(args: seq<Argument<V>>, specs: Specs): Filled
  {
    match GetDynamicSpec(args, specs.widthRef, specs.width, "width")
    case BadWidth(message) => Unfilled(message)
    case Width(w) =>
      match GetDynamicSpec(args, specs.precisionRef, specs.precision, "precision")
      case BadWidth(message) => Unfilled(message)
      case Width(p) => Filled(specs.(width := w, precision := p))
  }

  function WriteArgument<V>(f: Formatting<V>, arg: Argument<V>, specs: Specs): Written
  {
    if CharSpecsFit(TypeOf(arg), specs) then f.writeSpecs(arg, specs) else Unwritable(BAD_CHAR)
  }

  /** Fills in the dynamic width and precision, then writes the argument. */
  function WriteField<V>(f: Formatting<V>, args: seq<Argument<V>>, id: nat, specs: Specs): Written
    requires id < |args|
  {
    match FillDynamic(args, specs)
    case Unfilled(message) => Unwritable(message)
    case Filled(full) => WriteArgument(f, args[id], full)
  }

  // ---- What writing a field comes to

  /** The width or precision n: given, or the value of the argument referred to. */
  predicate Amounts<V>(args: seq<Argument<V>>, ref: ArgRef, given: int, n: int)
  {
    match ref
    case NoRef => n == given
    case RefName(_) => false
    case RefIndex(i) => 0 <= i < |args| && args[i].Number? && n == args[i].number && 0 <= n <= 2147483647
  }

  /** Why an argument cannot be one. */
  predicate Refuses<V>(args: seq<Argument<V>>, ref: ArgRef, what: string, message: string)
  {
    match ref
    case NoRef => false
    case RefName(_) => message == "argument not found"
    case RefIndex(i) =>
      || (!(0 <= i < |args|) && message == "argument not found")
      || (0 <= i < |args| && args[i].Other? && message == what + " is not integer")
      || (0 <= i < |args| && args[i].Number? && args[i].number < 0 && message == "negative " + what)
      || (0 <= i < |args| && args[i].Number? && args[i].number > 2147483647 && message == "number is too big")
  }

  lemma AmountsOrRefuses<V>(args: seq<Argument<V>>, ref: ArgRef, given: int, what: string)
    ensures (exists n :: Amounts(args, ref, given, n)) <==> !(exists message :: Refuses(args, ref, what, message))
  {
    match GetDynamicSpec(args, ref, given, what)
    case Width(n) => assert Amounts(args, ref, given, n);
    case BadWidth(message) => assert Refuses(args, ref, what, message);
  }

  /** The argument is written with the specification but for the amounts, which are filled in. */
  lemma WritesAmounts<V>(f: Formatting<V>, args: seq<Argument<V>>, id: nat, sp: Specs, w: int, p: int)
    requires id < |args| && Amounts(args, sp.widthRef, sp.width, w) && Amounts(args, sp.precisionRef, sp.precision, p)
    ensures WriteField(f, args, id, sp) ==
      if CharSpecsFit(TypeOf(args[id]), sp) then f.writeSpecs(args[id], sp.(width := w, precision := p))
      else Unwritable(BAD_CHAR)
    ensures Format(f, args, SpecField(id, sp)) == WriteField(f, args, id, sp)
  {}

  /** Without an amount nothing is written; the width is looked at first. */
  lemma RefusesAmounts<V>(f: Formatting<V>, args: seq<Argument<V>>, id: nat, sp: Specs, w: int, message: string)
    requires id < |args|
    requires || Refuses(args, sp.widthRef, "width", message)
             || (Amounts(args, sp.widthRef, sp.width, w) && Refuses(args, sp.precisionRef, "precision", message))
    ensures WriteField(f, args, id, sp) == Unwritable(message)
    ensures Format(f, args, SpecField(id, sp)) == Unwritable(message)
  {}

  // ---- Running

  /** What has been written, and the parse context's next automatic id. */
  datatype Run = Run(out: string, next: int)

  function OnArgId(st: Run, id: ArgId): ArgAnswer<Run>
  {
    match id
    case Auto => if st.next < 0 then NoArg(TO_AUTOMATIC) else Arg(st.next, st.(next := st.next + 1))
    case ByIndex(n) => if st.next > 0 then NoArg(TO_MANUAL) else Arg(n, st.(next := -1))
    case ByName(_) => NoArg(NOT_FOUND)
  }

  function OnReplacementField<V>(f: Formatting<V>, args: seq<Argument<V>>, st: Run, id: nat): Outcome<Run>
  {
    if id >= |args| then Aborted(st, NOT_FOUND) else Done(st.(out := st.out + f.write(args[id])))
  }

  function OnFormatSpecs<V>(f: Formatting<V>, args: seq<Argument<V>>, st: Run, id: nat, s: string, b: nat)
    : (r: SpecAnswer<Run>)
    requires b <= |s|
    ensures r.SpecsEnd? ==> b <= r.pos <= |s|
  {
    if id >= |args| then BadSpecs(NOT_FOUND)
    else
      match SpecsAt(s, b, TypeOf(args[id]), st.next)
      case Bad(message) => BadSpecs(message)
      case Good(specs, e, next) =>
        match FillDynamic(args, specs)
        case Unfilled(message) => BadSpecs(message)
        case Filled(full) =>
          if e == |s| || s[e] != '}' then BadSpecs("missing '}' in format string")
          else
            match WriteArgument(f, args[id], full)
            case Unwritable(message) => BadSpecs(message)
            case Written(text) => SpecsEnd(e, Run(st.out + text, next))
  }

  function FormatHandler<V>(f: Formatting<V>, args: seq<Argument<V>>): Handler<Run>
  {
    Handler(
      (st: Run, t: string) => st.(out := st.out + t),
      OnArgId,
      (st: Run, id: nat) => OnReplacementField(f, args, st, id),
      (st: Run, id: nat, s: string, b: nat) =>
        if b <= |s| then OnFormatSpecs(f, args, st, id, s, b) else BadSpecs(""))
  }

  lemma FormatHandlerSound<V>(f: Formatting<V>, args: seq<Argument<V>>)
    ensures Sound(FormatHandler(f, args))
  {
    var h := FormatHandler(f, args);
    forall st: Run, a, b
      ensures h.onText(st, "") == st && h.onText(h.onText(st, a), b) == h.onText(st, a + b)
    {
      assert st.out + "" == st.out && (st.out + a) + b == st.out + (a + b);
    }
  }

  /** What interpreting the string leaves. */
  function Interpreted<V>(f: Formatting<V>, args: seq<Argument<V>>, s: string): Outcome<Run>
  {
    FormatHandlerSound(f, args);
    Interpret(FormatHandler(f, args), s, 0, 0, Run("", 0))
  }

  /** The formatting entry point, with its shortcut for a single plain field. */
  method VformatTo<V>(f: Formatting<V>, args: seq<Argument<V>>, s: string) returns (o: Outcome<string>)
    ensures var r := Interpreted(f, args, s);
      o == if r.Done? then Done(r.st.out) else Aborted(r.at.out, r.message)
  {
    FormatHandlerSound(f, args);
    if s == "{}" {
      PlainField(f, args);
      return if |args| == 0 then Aborted("", NOT_FOUND) else Done(f.write(args[0]));
    }
    var r := ParseFormatString(FormatHandler(f, args), s, Run("", 0));
    o := if r.Done? then Done(r.st.out) else Aborted(r.at.out, r.message);
  }

  lemma PlainField<V>(f: Formatting<V>, args: seq<Argument<V>>)
    ensures Interpreted(f, args, "{}") ==
      if |args| == 0 then Aborted(Run("", 1), NOT_FOUND) else Done(Run(f.write(args[0]), 1))
  {
    FormatHandlerSound(f, args);
    var s := "{}";
    assert s[0..0] == "" && s[2..2] == "" && "" + "" == "";
    if |args| > 0 {
      var text := f.write(args[0]);
      assert ("" + text) + "" == text;
    }
  }

  // ---- Compiling

  datatype Compiled =
    | TextPart(data: string)
    | CodeUnit(value: char)
    | Field(id: nat)
    | SpecField(id: nat, specs: Specs)
    | Concat(lhs: Compiled, rhs: Compiled)

  datatype Compilation = Ok(format: Compiled) | Rejected

  /** The next brace, or the end. */
  function ParseText(s: string, pos: nat): (e: nat)
    requires pos <= |s|
    ensures pos <= e <= |s| && NoBraces(s, pos, e) && (e < |s| ==> s[e] == '{' || s[e] == '}')
    decreases |s| - pos
  {
    if pos < |s| && s[pos] != '{' && s[pos] != '}' then ParseText(s, pos + 1) else pos
  }

  function ParseTail(types: seq<ArgType>, head: Compiled, s: string, pos: nat, id: int): Compilation
    requires pos <= |s|
    decreases |s| - pos, 1
  {
    if pos == |s| then Ok(head)
    else
      match CompileFormatString(types, s, pos, id)
      case Rejected => Rejected
      case Ok(tail) => Ok(Concat(head, tail))
  }

  /** The specifications at pos; manual ids start the context anew and stay manual. */
  function ParseSpecs(t: ArgType, s: string, pos: nat, next: int): (r: Parsed<Specs>)
    requires pos <= |s|
    ensures r.Good? ==> pos <= r.pos <= |s|
  {
    match SpecsAt(s, pos, t, if next == -1 then 0 else next)
    case Bad(message) => Bad(message)
    case Good(specs, e, next') =>
      if CharSpecsFit(t, specs) then Good(specs, e, if next == -1 then -1 else next') else Bad(BAD_CHAR)
  }

  function ParseReplacementFieldThenTail(types: seq<ArgType>, s: string, endPos: nat, arg: nat, next: int): Compilation
    requires 0 < endPos <= |s| && arg < |types|
    decreases |s| - endPos, 2
  {
    if endPos < |s| && s[endPos] == '}' then ParseTail(types, Field(arg), s, endPos + 1, next)
    else if endPos == |s| || s[endPos] != ':' then Rejected
    else
      match ParseSpecs(types[arg], s, endPos + 1, next)
      case Bad(_) => Rejected
      case Good(specs, e, next') =>
        if e == |s| || s[e] != '}' then Rejected else ParseTail(types, SpecField(arg, specs), s, e + 1, next')
  }

  /** The string from pos on; id is the next automatic argument id, -1 once ids are manual. */
  function CompileFormatString(types: seq<ArgType>, s: string, pos: nat, id: int): Compilation
    requires pos < |s|
    decreases |s| - pos, 0
  {
    if s[pos] == '{' then
      if pos + 1 == |s| then Rejected
      else if s[pos + 1] == '{' then ParseTail(types, TextPart(s[pos..pos + 1]), s, pos + 2, id)
      else if s[pos + 1] == '}' || s[pos + 1] == ':' then
        if id < 0 || id >= |types| then Rejected
        else ParseReplacementFieldThenTail(types, s, pos + 1, id, id + 1)
      else
        match ReadArgId(s, pos + 1)
        case BadId => Rejected
        case Id(argId, e) =>
          if e == |s| || (s[e] != '}' && s[e] != ':') then Rejected
          else if !argId.ByIndex? || id > 0 || argId.index >= |types| then Rejected
          else ParseReplacementFieldThenTail(types, s, e, argId.index, -1)
    else if s[pos] == '}' then
      if pos + 1 == |s| then Rejected else ParseTail(types, TextPart(s[pos..pos + 1]), s, pos + 2, id)
    else
      var e := ParseText(s, pos + 1);
      ParseTail(types, if e - pos > 1 then TextPart(s[pos..e]) else CodeUnit(s[pos]), s, e, id)
  }

  function Compile(types: seq<ArgType>, s: string): Compilation
  {
    if s == "" then Ok(TextPart("")) else CompileFormatString(types, s, 0, 0)
  }

  /** Formatting with the compiled string. */
  function Format<V>(f: Formatting<V>, args: seq<Argument<V>>, c: Compiled): Written
  {
    match c
    case TextPart(data) => Written(data)
    case CodeUnit(value) => Written([value])
    case Field(id) => if id < |args| then Written(f.write(args[id])) else Unwritable(NOT_FOUND)
    case SpecField(id, specs) => if id < |args| then WriteField(f, args, id, specs) else Unwritable(NOT_FOUND)
    case Concat(lhs, rhs) =>
      match Format(f, args, lhs)
      case Unwritable(message) => Unwritable(message)
      case Written(a) =>
        match Format(f, args, rhs)
        case Unwritable(message) => Unwritable(message)
        case Written(b) => Written(a + b)
  }

  // ---- Compiling, then formatting, is interpreting

  function Types<V>(args: seq<Argument<V>>): (ts: seq<ArgType>)
    ensures |ts| == |args| && forall i | 0 <= i < |ts| :: ts[i] == TypeOf(args[i])
  {
    seq(|args|, i requires 0 <= i < |args| => TypeOf(args[i]))
  }

  /** If interpreting succeeds, compiling does too, and the compiled string writes what interpreting adds to out. */
  predicate Agrees<V>(f: Formatting<V>, args: seq<Argument<V>>, c: Compilation, out: string, end: Outcome<Run>)
  {
    end.Done? ==> c.Ok? && Format(f, args, c.format).Written? && end.st.out == out + Format(f, args, c.format).text
  }

  /** The specifications read alike in the run-time context next and in the one the compiler sets up for it. */
  lemma SpecsAgree<V>(f: Formatting<V>, args: seq<Argument<V>>, s: string, b: nat, id: nat, next: int)
    requires b <= |s| && id < |args| && (next == -1 || next > 0)
    requires SpecsAt(s, b, TypeOf(args[id]), next).Good?
    requires WriteField(f, args, id, SpecsAt(s, b, TypeOf(args[id]), next).value).Written?
    ensures var t := TypeOf(args[id]);
      && ParseSpecs(t, s, b, next) == SpecsAt(s, b, t, next)
      && (SpecsAt(s, b, t, next).next == -1 || SpecsAt(s, b, t, next).next > 0)
  {
    hide SpecsFrom, GetDynamicSpec;
    if b < |s| {
      SpecsSameContext(s, b, FirstChar(s, b), TypeOf(args[id]), NO_SPECS, Start, next, if next == -1 then 0 else next);
    }
  }

  /** A field, or an escaped brace, that interpreting gets past becomes one part of the compiled string. */
  lemma FieldCompiles<V>(f: Formatting<V>, args: seq<Argument<V>>, s: string, p: nat, st: Run)
    returns (head: Compiled, text: string)
    requires p < |s| && s[p] == '{' && st.next >= -1 && Sound(FormatHandler(f, args))
    requires ParseReplacementField(FormatHandler(f, args), s, p, st).FieldEnd?
    ensures var r := ParseReplacementField(FormatHandler(f, args), s, p, st);
      && Format(f, args, head) == Written(text) && r.st.out == st.out + text && r.st.next >= -1
      && CompileFormatString(Types(args), s, p, st.next) == ParseTail(Types(args), head, s, r.pos, r.st.next)
  {
    hide Sound, ParseTail, SpecsAt, FillDynamic, WriteArgument, ParseSpecs, ReadArgId;
    var h := FormatHandler(f, args);
    var b := p + 1;
    if s[b] == '{' {
      head, text := TextPart(s[p..p + 1]), s[b..b + 1];
    } else {
      var argId, e := Auto, b;
      if s[b] != '}' && s[b] != ':' {
        var read := ReadArgId(s, b);
        argId, e := read.id, read.end;
      } else {
        ReadAuto(s, b);
      }
      var a := OnArgId(st, argId);
      if s[e] == '}' {
        head, text := Field(a.id), f.write(args[a.id]);
      } else {
        var parsed := SpecsAt(s, e + 1, TypeOf(args[a.id]), a.st.next);
        SpecsAgree(f, args, s, e + 1, a.id, a.st.next);
        head, text := SpecField(a.id, parsed.value), WriteField(f, args, a.id, parsed.value).text;
      }
    }
  }

  /** Text in front may be handled by itself: a run ends well with it or without it, and then in the same state. */
  lemma InterpretText<S(!new)>(h: Handler<S>, s: string, from: nat, i: nat, st: S)
    requires from <= i <= |s| && Sound(h) && (i < |s| ==> s[i] == '{' || s[i] == '}')
    ensures var r, r' := Interpret(h, s, from, i, st), Interpret(h, s, i, i, h.onText(st, s[from..i]));
      (r.Done? <==> r'.Done?) && (r.Done? ==> r == r')
  {
    hide ParseReplacementField;
    if i < |s| && s[i] == '}' {
      assert s[from..i + 1] == s[from..i] + s[i..i + 1];
    } else {
      InterpretFlush(h, s, from, i, st);
    }
  }

  lemma {:induction false} CompiledAgrees<V>(f: Formatting<V>, args: seq<Argument<V>>, s: string, pos: nat, st: Run)
    requires pos < |s| && st.next >= -1 && Sound(FormatHandler(f, args))
    ensures Agrees(f, args, CompileFormatString(Types(args), s, pos, st.next), st.out,
                   Interpret(FormatHandler(f, args), s, pos, pos, st))
    decreases |s| - pos, 0
  {
    hide Sound, ParseReplacementField, Interpret, ParseReplacementFieldThenTail, ReadArgId, FormatHandler, Agrees;
    var h := FormatHandler(f, args);
    var end := Interpret(h, s, pos, pos, st);
    if end.Aborted? {
      AbortedAgrees(f, args, CompileFormatString(Types(args), s, pos, st.next), st.out, end);
    } else if s[pos] == '{' {
      InterpretField(h, s, pos, st);
      var head, text := FieldCompiles(f, args, s, pos, st);
      var r := ParseReplacementField(h, s, pos, st);
      TailAgrees(f, args, head, text, s, r.pos, st.out, r.st);
    } else if s[pos] == '}' {
      InterpretClose(h, s, pos, pos, st);
      HandlerText(f, args, st, s[pos..pos + 1]);
      var brace := s[pos..pos + 1];
      TailAgrees(f, args, TextPart(brace), brace, s, pos + 2, st.out, h.onText(st, brace));
    } else {
      var e := ParseText(s, pos + 1);
      InterpretSkips(h, s, pos, pos, e, st);
      InterpretText(h, s, pos, e, st);
      HandlerText(f, args, st, s[pos..e]);
      var head := if e - pos > 1 then TextPart(s[pos..e]) else CodeUnit(s[pos]);
      TailAgrees(f, args, head, s[pos..e], s, e, st.out, h.onText(st, s[pos..e]));
    }
  }

  lemma HandlerText<V>(f: Formatting<V>, args: seq<Argument<V>>, st: Run, text: string)
    ensures FormatHandler(f, args).onText(st, text) == st.(out := st.out + text)
  {}

  lemma AbortedAgrees<V>(f: Formatting<V>, args: seq<Argument<V>>, c: Compilation, out: string, end: Outcome<Run>)
    requires end.Aborted?
    ensures Agrees(f, args, c, out, end)
  {}

  lemma {:induction false} TailAgrees<V>(f: Formatting<V>, args: seq<Argument<V>>, head: Compiled, text: string,
                                         s: string, pos: nat, out: string, st: Run)
    requires pos <= |s| && st.next >= -1 && Sound(FormatHandler(f, args))
    requires Format(f, args, head) == Written(text) && st.out == out + text
    ensures Agrees(f, args, ParseTail(Types(args), head, s, pos, st.next), out,
                   Interpret(FormatHandler(f, args), s, pos, pos, st))
    decreases |s| - pos, 1
  {
    hide Sound, CompileFormatString, FormatHandler;
    if pos == |s| {
      NothingLeft(FormatHandler(f, args), s, st);
    } else {
      hide Interpret;
      CompiledAgrees(f, args, s, pos, st);
      var c := CompileFormatString(Types(args), s, pos, st.next);
      if c.Ok? && Format(f, args, c.format).Written? {
        assert (out + text) + Format(f, args, c.format).text == out + (text + Format(f, args, c.format).text);
      }
    }
  }

  /**
    Every format string that runs on some positional arguments compiles for their types, and the compiled
    string writes the same text.
   */
  lemma CompileThenFormat<V>(f: Formatting<V>, args: seq<Argument<V>>, s: string)
    requires Interpreted(f, args, s).Done?
    ensures Compile(Types(args), s).Ok?
    ensures Format(f, args, Compile(Types(args), s).format) == Written(Interpreted(f, args, s).st.out)
  {
    hide Sound, Interpret, CompileFormatString;
    FormatHandlerSound(f, args);
    if s == "" {
      NothingLeft(FormatHandler(f, args), s, Run("", 0));
    } else {
      CompiledAgrees(f, args, s, 0, Run("", 0));
    }
  }
  // ---- The other way round

  /**
    Whether a specification contains no automatic reference, that is a pair of braces with nothing in
    between as a width or precision. The arguments are those of the loop that reads it.
   */
  predicate NoAutoRef(s: string, b: nat, c: char, t: ArgType, specs: Specs, part: Part, next: int)
    requires b < |s| && (c == s[b] || c == '\0')
    decreases |s| - b
  {
    && !AutoRefAt(s, b, c)
    && match SpecTurn(s, b, c, t, specs, part, next)
       case More(specs', e, part', next') => e == |s| || NoAutoRef(s, e, s[e], t, specs', part', next')
       case _ => true
  }

  predicate AutoRefAt(s: string, b: nat, c: char)
  {
    (c == '{' && Here(s, b + 1, '}')) || (c == '.' && Here(s, b + 1, '{') && Here(s, b + 2, '}'))
  }

  predicate Here(s: string, i: nat, c: char)
  {
    i < |s| && s[i] == c
  }

  /** The same for the specification at b, in the context the compiler sets up for manual ids. */
  predicate ManualSpecs(s: string, b: nat, t: ArgType)
    requires b <= |s|
  {
    b == |s| || NoAutoRef(s, b, FirstChar(s, b), t, NO_SPECS, Start, 0)
  }

  /**
    What the compiler does not check, along the parts it compiles: a closing brace outside a field is
    doubled, and no specification refers to an argument automatically once ids are manual.
   */
  predicate Guarded(types: seq<ArgType>, s: string, pos: nat, id: int)
    requires pos <= |s|
    decreases |s| - pos, 1
  {
    if pos == |s| then true
    else if s[pos] == '{' then
      if pos + 1 == |s| then true
      else if s[pos + 1] == '{' then Guarded(types, s, pos + 2, id)
      else if s[pos + 1] == '}' || s[pos + 1] == ':' then
        id < 0 || id >= |types| || FieldGuarded(types, s, pos + 1, id, id + 1)
      else
        match ReadArgId(s, pos + 1)
        case BadId => true
        case Id(argId, e) =>
          !argId.ByIndex? || argId.index >= |types| || FieldGuarded(types, s, e, argId.index, -1)
    else if s[pos] == '}' then Here(s, pos + 1, '}') && Guarded(types, s, pos + 2, id)
    else Guarded(types, s, ParseText(s, pos + 1), id)
  }

  predicate FieldGuarded(types: seq<ArgType>, s: string, endPos: nat, arg: nat, next: int)
    requires endPos <= |s| && arg < |types|
    decreases |s| - endPos, 2
  {
    if Here(s, endPos, '}') then Guarded(types, s, endPos + 1, next)
    else if !Here(s, endPos, ':') then true
    else
      match ParseSpecs(types[arg], s, endPos + 1, next)
      case Bad(_) => true
      case Good(_, e, next') =>
        && (next == -1 ==> ManualSpecs(s, endPos + 1, types[arg]))
        && (Here(s, e, '}') ==> Guarded(types, s, e + 1, next'))
  }

  /** A width or precision that is good in an unused context is good in a manual one unless it is automatic. */
  lemma DynamicManual(s: string, b: nat, d: Dynamic, m: int)
    requires b < |s| && SameContext(-1, m) && ParseDynamicSpec(s, b, d, m).Good?
    ensures var r, r' := ParseDynamicSpec(s, b, d, m), ParseDynamicSpec(s, b, d, -1);
      if s[b] == '{' && Here(s, b + 1, '}') then r'.Bad?
      else r'.Good? && r'.value == r.value && r'.pos == r.pos && r'.next == -1 && SameContext(-1, r.next)
  {
    if s[b] == '{' && Here(s, b + 1, '}') {
      ReadAuto(s, b + 1);
    }
  }

  /** The same turn in a manual context. */
  function ManualOf(turn: Turn): Turn
  {
    match turn
    case Return(specs, pos, _) => Return(specs, pos, -1)
    case More(specs, pos, part, _) => More(specs, pos, part, -1)
    case Stop(message) => Stop(message)
  }

  /** r' is r in a manual context, if r is taken at all. */
  predicate TurnsManual(r: Turn, r': Turn)
  {
    !r.Stop? ==> r' == ManualOf(r) && SameContext(-1, r.next)
  }

  lemma FillManual(s: string, b: nat, t: ArgType, specs: Specs, part: Part, m: int)
    requires b < |s| && SameContext(-1, m)
    ensures TurnsManual(FillTurn(s, b, specs, part, m), FillTurn(s, b, specs, part, -1))
    ensures TurnsManual(ZeroTurn(b, t, specs, part, m), ZeroTurn(b, t, specs, part, -1))
  {}

  lemma EnterManual(from: Part, to: Part, valid: bool, specs: Specs, pos: nat, m: int)
    requires SameContext(-1, m)
    ensures TurnsManual(Enter(from, to, valid, specs, pos, m), Enter(from, to, valid, specs, pos, -1))
  {}

  lemma WidthManual(s: string, b: nat, specs: Specs, part: Part, m: int)
    requires b < |s| && (IsDigit(s[b]) || s[b] == '{') && SameContext(-1, m)
    ensures var r, r' := WidthTurn(s, b, specs, part, m), WidthTurn(s, b, specs, part, -1);
      if s[b] == '{' && Here(s, b + 1, '}') then r'.Stop? else TurnsManual(r, r')
  {
    hide ParseDynamicSpec;
    var d := Dynamic(specs.width, specs.widthRef);
    AutomaticIsBad(s, b, d);
    if ParseDynamicSpec(s, b, d, m).Good? {
      DynamicManual(s, b, d, m);
    }
  }

  lemma PrecisionManual(s: string, b: nat, t: ArgType, specs: Specs, part: Part, m: int)
    requires b < |s| && SameContext(-1, m)
    ensures var r, r' := PrecisionTurn(s, b, t, specs, part, m), PrecisionTurn(s, b, t, specs, part, -1);
      if Here(s, b + 1, '{') && Here(s, b + 2, '}') then r'.Stop? else TurnsManual(r, r')
  {
    hide ParseDynamicSpec;
    var d := Dynamic(specs.precision, specs.precisionRef);
    if b + 1 < |s| {
      AutomaticIsBad(s, b + 1, d);
      if ParseDynamicSpec(s, b + 1, d, m).Good? {
        DynamicManual(s, b + 1, d, m);
      }
    }
  }

  lemma AutomaticIsBad(s: string, b: nat, d: Dynamic)
    requires b < |s|
    ensures s[b] == '{' && Here(s, b + 1, '}') ==> ParseDynamicSpec(s, b, d, -1).Bad?
  {
    if s[b] == '{' && Here(s, b + 1, '}') {
      ReadAuto(s, b + 1);
    }
  }

  /** A turn that is taken in an unused context is taken in a manual one unless it is an automatic reference. */
  lemma TurnManual(s: string, b: nat, c: char, t: ArgType, specs: Specs, part: Part, m: int)
    requires b < |s| && (c == s[b] || c == '\0') && SameContext(-1, m)
    ensures var r, r' := SpecTurn(s, b, c, t, specs, part, m), SpecTurn(s, b, c, t, specs, part, -1);
      if AutoRefAt(s, b, c) then r'.Stop? else TurnsManual(r, r')
  {
    hide WidthTurn, PrecisionTurn, FillTurn, ZeroTurn, TakesLetter, Enter, IsLetter, ParseAlign;
    FillManual(s, b, t, specs, part, m);
    PrecisionManual(s, b, t, specs, part, m);
    if IsDigit(s[b]) || s[b] == '{' {
      WidthManual(s, b, specs, part, m);
    }
    EnterManual(part, AlignPart, true, specs.(align := ParseAlign(c)), b + 1, m);
    EnterManual(part, SignPart, t.SignedInt? || t.Float?,
                specs.(sign := if c == '+' then Plus else if c == '-' then Minus else Space), b + 1, m);
    EnterManual(part, HashPart, IsArithmetic(t), specs.(alt := true), b + 1, m);
    EnterManual(part, LocalePart, IsArithmetic(t), specs.(localized := true), b + 1, m);
  }

  /** What is good in an unused context is good in a manual one exactly without automatic references. */
  lemma {:induction false} SpecsManual(s: string, b: nat, c: char, t: ArgType, specs: Specs, part: Part, m: int)
    requires b < |s| && (c == s[b] || c == '\0') && SameContext(-1, m) && SpecsFrom(s, b, c, t, specs, part, m).Good?
    ensures var r, r' := SpecsFrom(s, b, c, t, specs, part, m), SpecsFrom(s, b, c, t, specs, part, -1);
      if NoAutoRef(s, b, c, t, specs, part, m) then r' == r.(next := -1) else r'.Bad?
    decreases |s| - b
  {
    hide SpecTurn, AutoRefAt;
    TurnManual(s, b, c, t, specs, part, m);
    if !AutoRefAt(s, b, c) {
      match SpecTurn(s, b, c, t, specs, part, m)
      case Return(_, _, _) =>
      case More(specs', e, part', next) =>
        if e < |s| {
          SpecsManual(s, e, s[e], t, specs', part', next);
        }
      case Stop(_) => assert false;
    }
  }

  /** What the compiler accepts at b is read alike at run time, but for automatic references among manual ids. */
  lemma SpecsBack(t: ArgType, s: string, b: nat, next: int)
    requires b <= |s| && (next == -1 || next > 0) && ParseSpecs(t, s, b, next).Good?
    ensures if next == -1 && !ManualSpecs(s, b, t) then SpecsAt(s, b, t, next).Bad?
            else SpecsAt(s, b, t, next) == ParseSpecs(t, s, b, next)
  {
    hide SpecsFrom, NoAutoRef, CharSpecsFit;
    if b < |s| && next == -1 {
      SpecsManual(s, b, FirstChar(s, b), t, NO_SPECS, Start, 0);
    }
  }

  /** The parts of a compiled string are written one after the other. */
  lemma TailWritten<V>(f: Formatting<V>, args: seq<Argument<V>>, head: Compiled, s: string, pos: nat, id: int)
    requires pos <= |s|
    requires var c := ParseTail(Types(args), head, s, pos, id); c.Ok? && Format(f, args, c.format).Written?
    ensures Format(f, args, head).Written?
    ensures pos < |s| ==>
      var c := CompileFormatString(Types(args), s, pos, id); c.Ok? && Format(f, args, c.format).Written?
  {
    hide CompileFormatString;
  }

  /** A field that was compiled and can be written is one that interpreting gets past, if it is guarded. */
  lemma FieldRuns<V>(f: Formatting<V>, args: seq<Argument<V>>, s: string, endPos: nat, arg: nat, st: Run)
    requires 0 < endPos <= |s| && arg < |args| && (st.next == -1 || st.next > 0) && Sound(FormatHandler(f, args))
    requires var c := ParseReplacementFieldThenTail(Types(args), s, endPos, arg, st.next);
      c.Ok? && Format(f, args, c.format).Written?
    ensures var types, h := Types(args), FormatHandler(f, args);
      endPos < |s| &&
      if s[endPos] == '}' then
        FieldGuarded(types, s, endPos, arg, st.next) == Guarded(types, s, endPos + 1, st.next)
      else
        && s[endPos] == ':'
        && match h.onSpecs(st, arg, s, endPos + 1)
           case BadSpecs(_) => !FieldGuarded(types, s, endPos, arg, st.next)
           case SpecsEnd(e, st') =>
             Here(s, e, '}') && FieldGuarded(types, s, endPos, arg, st.next) == Guarded(types, s, e + 1, st'.next)
  {
    hide Sound, ParseTail, SpecsAt, FillDynamic, WriteArgument, ParseSpecs, Guarded, ManualSpecs;
    var types := Types(args);
    if s[endPos] == ':' {
      SpecsBack(types[arg], s, endPos + 1, st.next);
      var parsed := ParseSpecs(types[arg], s, endPos + 1, st.next);
      TailWritten(f, args, SpecField(arg, parsed.value), s, parsed.pos + 1, parsed.next);
    }
  }

  /** From any position: a string that was compiled and can be written is interpreted to its end exactly if guarded. */
  lemma {:induction false} GuardedRuns<V>(f: Formatting<V>, args: seq<Argument<V>>, s: string, pos: nat, st: Run)
    requires pos <= |s| && st.next >= -1 && Sound(FormatHandler(f, args))
    requires pos < |s| ==>
      var c := CompileFormatString(Types(args), s, pos, st.next); c.Ok? && Format(f, args, c.format).Written?
    ensures Interpret(FormatHandler(f, args), s, pos, pos, st).Done? <==> Guarded(Types(args), s, pos, st.next)
    decreases |s| - pos
  {
    hide Sound, ParseReplacementField, Interpret, ParseTail, FieldGuarded, ReadArgId, FormatHandler, Format;
    var h, types := FormatHandler(f, args), Types(args);
    if pos == |s| {
      NothingLeft(h, s, st);
    } else if s[pos] == '{' {
      InterpretField(h, s, pos, st);
      FieldBack(f, args, s, pos, st);
      match ParseReplacementField(h, s, pos, st)
      case FieldAborts(_, _) =>
      case FieldEnd(e, st') =>
        var head, text := FieldCompiles(f, args, s, pos, st);
        TailWritten(f, args, head, s, e, st'.next);
        GuardedRuns(f, args, s, e, st');
    } else if s[pos] == '}' {
      InterpretClose(h, s, pos, pos, st);
      var brace := s[pos..pos + 1];
      HandlerText(f, args, st, brace);
      TailWritten(f, args, TextPart(brace), s, pos + 2, st.next);
      if Here(s, pos + 1, '}') {
        GuardedRuns(f, args, s, pos + 2, h.onText(st, brace));
      }
    } else {
      var e := ParseText(s, pos + 1);
      InterpretSkips(h, s, pos, pos, e, st);
      HandlerText(f, args, st, s[pos..e]);
      TailWritten(f, args, if e - pos > 1 then TextPart(s[pos..e]) else CodeUnit(s[pos]), s, e, st.next);
      GuardedRuns(f, args, s, e, h.onText(st, s[pos..e]));
      InterpretText(h, s, pos, e, st);
    }
  }

  lemma FieldBack<V>(f: Formatting<V>, args: seq<Argument<V>>, s: string, p: nat, st: Run)
    requires p < |s| && s[p] == '{' && st.next >= -1 && Sound(FormatHandler(f, args))
    requires var c := CompileFormatString(Types(args), s, p, st.next); c.Ok? && Format(f, args, c.format).Written?
    ensures match ParseReplacementField(FormatHandler(f, args), s, p, st)
      case FieldAborts(_, _) => !Guarded(Types(args), s, p, st.next)
      case FieldEnd(e, st') => Guarded(Types(args), s, p, st.next) == Guarded(Types(args), s, e, st'.next)
  {
    hide Sound, ParseTail, ReadArgId, OnFormatSpecs, ParseReplacementFieldThenTail, FieldGuarded, Format;
    var b := p + 1;
    if s[b] != '{' {
      var argId, e := Auto, b;
      if s[b] != '}' && s[b] != ':' {
        var read := ReadArgId(s, b);
        argId, e := read.id, read.end;
      } else {
        ReadAuto(s, b);
      }
      var a := OnArgId(st, argId);
      FieldRuns(f, args, s, e, a.id, a.st);
    }
  }

  /**
    Exactly when interpreting succeeds: the string compiles for the arguments' types, what was compiled
    can be written, and what the compiler does not check is in order.
   */
  lemma InterpretsIffCompiles<V>(f: Formatting<V>, args: seq<Argument<V>>, s: string)
    ensures var c := Compile(Types(args), s);
      Interpreted(f, args, s).Done? <==>
      c.Ok? && Format(f, args, c.format).Written? && Guarded(Types(args), s, 0, 0)
  {
    hide Sound, Interpret, CompileFormatString, Guarded, Format;
    FormatHandlerSound(f, args);
    if Interpreted(f, args, s).Done? {
      CompileThenFormat(f, args, s);
    }
    var c := Compile(Types(args), s);
    if c.Ok? && Format(f, args, c.format).Written? {
      GuardedRuns(f, args, s, 0, Run("", 0));
    }
  }

  /** The compiler does not look at what follows a closing brace. */
  lemma LoneBraceCompiles<V>(f: Formatting<V>, args: seq<Argument<V>>)
    ensures Interpreted(f, args, "}x") == Aborted(Run("", 0), UNMATCHED)
    ensures Compile(Types(args), "}x") == Ok(TextPart("}"))
  {
    FormatHandlerSound(f, args);
    assert "}x"[0..1] == "}";
  }

  /** And it takes an automatic width next to a manual id. */
  lemma MixedIdsCompile<V>(f: Formatting<V>, n: nat)
    ensures var args, s := [Number(true, n)], "{0:{}}";
      && Interpreted(f, args, s) == Aborted(Run("", -1), TO_AUTOMATIC)
      && Compile(Types(args), s) == Ok(SpecField(0, NO_SPECS.(widthRef := RefIndex(0))))
  {
    hide SpecsAt;
    FormatHandlerSound(f, [Number(true, n)]);
    var s := "{0:{}}";
    assert ReadArgId(s, 1) == Id(ByIndex(0), 2);
    MixedSpecs();
    assert s[0..0] == "";
  }

  lemma MixedSpecs()
    ensures var s := "{0:{}}";
      && SpecsAt(s, 3, SignedInt, 0) == Good(NO_SPECS.(widthRef := RefIndex(0)), 5, 1)
      && SpecsAt(s, 3, SignedInt, -1) == Bad(TO_AUTOMATIC)
  {
    var s := "{0:{}}";
    ReadAuto(s, 4);
    assert ParseDynamicSpec(s, 3, Dynamic(0, NoRef), 0) == Good(Dynamic(0, RefIndex(0)), 5, 1);
    assert ParseDynamicSpec(s, 3, Dynamic(0, NoRef), -1) == Bad(TO_AUTOMATIC);
    hide ParseDynamicSpec;
    assert FirstChar(s, 3) == s[3];
    var specs := NO_SPECS.(widthRef := RefIndex(0));
    assert SpecTurn(s, 3, s[3], SignedInt, NO_SPECS, Start, 0) == More(specs, 5, WidthPart, 1);
    assert SpecTurn(s, 5, s[5], SignedInt, specs, WidthPart, 1) == Return(specs, 5, 1);
  }
}
