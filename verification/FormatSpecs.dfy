/** Format specifications: argument ids, fields nested in them, and their grammar. */
module FormatSpecs {
  import opened Arith
  import opened Decimals
  import opened IntegerText

  /** The kinds of built-in arguments that the grammar tells apart. */
  datatype ArgType = SignedInt | UnsignedInt | Bool | Character | Float | CString | String | Pointer

  predicate IsArithmetic(t: ArgType)
  {
    !t.CString? && !t.String? && !t.Pointer?
  }

  predicate IsIntegral(t: ArgType)
  {
    t.SignedInt? || t.UnsignedInt? || t.Bool? || t.Character?
  }

  /** How a field names its argument. */
  datatype ArgId = Auto | ByIndex(index: nat) | ByName(name: string)

  datatype Align = NoAlign | Left | Right | Center | Numeric
  datatype SignSpec = NoSign | Plus | Minus | Space
  /** The presentation type, by its letter. */
  datatype Presentation = Default | As(letter: char)
  /** Where a width or precision comes from, if not from the text. */
  datatype ArgRef = NoRef | RefIndex(index: int) | RefName(name: string)

  datatype Specs = Specs(width: int, precision: int, presentation: Presentation, align: Align, sign: SignSpec,
                         alt: bool, localized: bool, fill: string, widthRef: ArgRef, precisionRef: ArgRef)

  const NO_SPECS := Specs(0, -1, Default, NoAlign, NoSign, false, false, " ", NoRef, NoRef)

  /** A parsed value, where parsing goes on, and the context's next automatic id, -1 once ids are manual. */
  datatype Parsed<T> = Good(value: T, pos: nat, next: int) | Bad(message: string)

  // ---- Argument ids

  predicate IsNameStart(c: char)
  {
    'a' <= c <= 'z' || 'A' <= c <= 'Z' || c == '_'
  }

  function NameEnd(s: string, i: nat): (e: nat)
    requires i <= |s|
    ensures i <= e <= |s|
    decreases |s| - i
  {
    if i < |s| && (IsNameStart(s[i]) || IsDigit(s[i])) then NameEnd(s, i + 1) else i
  }

  /** An argument id and where it ends; the context does not matter yet. */
  datatype IdRead = Id(id: ArgId, end: nat) | BadId

  function ReadArgId(s: string, b: nat): (r: IdRead)
    requires b < |s|
    ensures r.Id? ==> b <= r.end <= |s|
    ensures r.Id? && r.id.Auto? ==> r.end == b && (s[b] == '}' || s[b] == ':')
    ensures r.Id? && !r.id.Auto? ==> b < r.end
    ensures r.Id? && r.id.ByIndex? ==> r.end < |s| && (s[r.end] == '}' || s[r.end] == ':')
  {
    if s[b] == '}' || s[b] == ':' then Id(Auto, b)
    else if IsDigit(s[b]) then
      var index: int := if s[b] == '0' then 0 else NonnegativeInt(s, b, INT_MAX);
      var e := if s[b] == '0' then b + 1 else DigitsEnd(s, b);
      if e == |s| || (s[e] != '}' && s[e] != ':') then BadId else Id(ByIndex(index), e)
    else if IsNameStart(s[b]) then
      var e := NameEnd(s, b + 1);
      Id(ByName(s[b..e]), e)
    else BadId
  }

  lemma ReadAuto(s: string, b: nat)
    requires b < |s| && (s[b] == '}' || s[b] == ':')
    ensures ReadArgId(s, b) == Id(Auto, b)
  {}

  method ParseArgId(s: string, b: nat) returns (r: IdRead)
    requires b < |s|
    ensures r == ReadArgId(s, b)
  {
    if s[b] == '}' || s[b] == ':' {
      return Id(Auto, b);
    }
    if IsDigit(s[b]) {
      var index, e := 0, b + 1;
      if s[b] != '0' {
        index, e := ParseNonnegativeInt(s, b, INT_MAX);
      }
      return if e == |s| || (s[e] != '}' && s[e] != ':') then BadId else Id(ByIndex(index), e);
    }
    if !IsNameStart(s[b]) {
      return BadId;
    }
    var it := b + 1;
    while it != |s| && (IsNameStart(s[it]) || IsDigit(s[it]))
      invariant b < it <= |s| && NameEnd(s, b + 1) == NameEnd(s, it)
    {
      it := it + 1;
    }
    r := Id(ByName(s[b..it]), it);
  }

  const TO_AUTOMATIC := "cannot switch from manual to automatic argument indexing"
  const TO_MANUAL := "cannot switch from automatic to manual argument indexing"

  /** The argument a nested field refers to, in a context whose next automatic id is next. */
  function ResolveRef(id: ArgId, pos: nat, next: int): Parsed<ArgRef>
  {
    match id
    case Auto => if next < 0 then Bad(TO_AUTOMATIC) else Good(RefIndex(next), pos, next + 1)
    case ByIndex(n) => if next > 0 then Bad(TO_MANUAL) else Good(RefIndex(n), pos, -1)
    case ByName(name) => Good(RefName(name), pos, next)
  }

  // ---- Width and precision

  datatype Dynamic = Dynamic(value: int, ref: ArgRef)

  function ParseDynamicSpec(s: string, b: nat, d: Dynamic, next: int): (r: Parsed<Dynamic>)
    requires b < |s|
    ensures r.Good? ==> b <= r.pos <= |s|
    ensures r.Good? && (IsDigit(s[b]) || s[b] == '{') ==> b < r.pos
  {
    if IsDigit(s[b]) then
      var value := NonnegativeInt(s, b, -1);
      if value != -1 then Good(d.(value := value), DigitsEnd(s, b), next) else Bad("number is too big")
    else if s[b] == '{' then
      if b + 1 == |s| then Bad("invalid format string")
      else
        var read := ReadArgId(s, b + 1);
        if read.BadId? then Bad("invalid format string")
        else
          match ResolveRef(read.id, read.end, next)
          case Bad(message) => Bad(message)
          case Good(ref, e, next') =>
            if e < |s| && s[e] == '}' then Good(d.(ref := ref), e + 1, next') else Bad("invalid format string")
    else Good(d, b, next)
  }

  // ---- The specifications

  function ParseAlign(c: char): Align
  {
    if c == '<' then Left else if c == '>' then Right else if c == '^' then Center else NoAlign
  }

  /** The number of code units in a code point, by its first one; 1 for one that starts none. */
  function CodePointLength(c: char): (n: nat)
    ensures n > 0
  {
    var u := c as int;
    if 0xC0 <= u < 0xE0 then 2 else if 0xE0 <= u < 0xF0 then 3 else if 0xF0 <= u < 0xF8 then 4 else 1
  }

  /** The parts of a specification come in this order, each at most once. */
  datatype Part = Start | AlignPart | SignPart | HashPart | ZeroPart | WidthPart | PrecisionPart | LocalePart

  function Rank(p: Part): nat
  {
    match p
    case Start => 0
    case AlignPart => 1
    case SignPart => 2
    case HashPart => 3
    case ZeroPart => 4
    case WidthPart => 5
    case PrecisionPart => 6
    case LocalePart => 7
  }

  /** What one turn of the specification loop comes to. */
  datatype Turn = Return(specs: Specs, pos: nat, next: int) | More(specs: Specs, pos: nat, part: Part, next: int)
                | Stop(message: string)

  const INVALID := "invalid format specifier"

  function Enter(from: Part, to: Part, valid: bool, specs: Specs, pos: nat, next: int): Turn
  {
    if Rank(from) >= Rank(to) || !valid then Stop(INVALID) else More(specs, pos, to, next)
  }

  predicate TakesLetter(t: ArgType, c: char)
  {
    match c
    case 'd' | 'o' | 'x' | 'X' | 'b' | 'B' | 'c' => IsIntegral(t)
    case 'a' | 'A' | 'e' | 'E' | 'f' | 'F' | 'g' | 'G' => t.Float?
    case 's' => t.Bool? || t.String? || t.CString?
    case 'p' => t.Pointer? || t.CString?
    case '?' => t.Character? || t.String? || t.CString?
    case _ => false
  }

  predicate IsLetter(c: char)
  {
    c in "doxXbBcaAeEfFgGsp?"
  }

  /** The fill character and its alignment. */
  function FillTurn(s: string, b: nat, specs: Specs, part: Part, next: int): (turn: Turn)
    requires b < |s|
    ensures turn.Return? ==> turn.pos == b && turn.next == next
    ensures turn.More? ==> b < turn.pos <= |s| && turn.next == next
  {
    var fillEnd := b + CodePointLength(s[b]);
    if s[b] == '}' then Return(specs, b, next)
    else if fillEnd >= |s| then Stop(INVALID)
    else if s[b] == '{' then Stop("invalid fill character '{'")
    else
      var align := ParseAlign(s[fillEnd]);
      Enter(part, AlignPart, align != NoAlign, specs.(fill := s[b..fillEnd], align := align), fillEnd + 1, next)
  }

  function WidthTurn(s: string, b: nat, specs: Specs, part: Part, next: int): (turn: Turn)
    requires b < |s| && (IsDigit(s[b]) || s[b] == '{')
    ensures !turn.Return? && (turn.More? ==> b < turn.pos <= |s|)
  {
    if Rank(part) >= Rank(WidthPart) then Stop(INVALID)
    else
      match ParseDynamicSpec(s, b, Dynamic(specs.width, specs.widthRef), next)
      case Bad(message) => Stop(message)
      case Good(d, e, next') => More(specs.(width := d.value, widthRef := d.ref), e, WidthPart, next')
  }

  function PrecisionTurn(s: string, b: nat, t: ArgType, specs: Specs, part: Part, next: int): (turn: Turn)
    requires b < |s|
    ensures !turn.Return? && (turn.More? ==> b < turn.pos <= |s|)
  {
    if Rank(part) >= Rank(PrecisionPart) || !(t.Float? || t.String? || t.CString?) then Stop(INVALID)
    else if b + 1 == |s| || s[b + 1] == '}' then Stop("invalid precision")
    else
      match ParseDynamicSpec(s, b + 1, Dynamic(specs.precision, specs.precisionRef), next)
      case Bad(message) => Stop(message)
      case Good(d, e, next') => More(specs.(precision := d.value, precisionRef := d.ref), e, PrecisionPart, next')
  }

  /** The character 0 in front of the width. */
  function ZeroTurn(b: nat, t: ArgType, specs: Specs, part: Part, next: int): (turn: Turn)
    ensures !turn.Return? && (turn.More? ==> turn.pos == b + 1 && turn.next == next)
  {
    if Rank(part) >= Rank(ZeroPart) then Stop(INVALID)
    else if !IsArithmetic(t) then Stop("format specifier requires numeric argument")
    else More(if specs.align == NoAlign then specs.(align := Numeric, fill := "0") else specs, b + 1, ZeroPart, next)
  }

  /** One turn at b; c is the character there, or 0 for a fill character. */
  function SpecTurn(s: string, b: nat, c: char, t: ArgType, specs: Specs, part: Part, next: int): (turn: Turn)
    requires b < |s| && (c == s[b] || c == '\0')
    ensures turn.Return? ==> b <= turn.pos <= |s|
    ensures turn.More? ==> b < turn.pos <= |s|
  {
    if c == '<' || c == '>' || c == '^' then
      Enter(part, AlignPart, true, specs.(align := ParseAlign(c)), b + 1, next)
    else if c == '+' || c == '-' || c == ' ' then
      Enter(part, SignPart, t.SignedInt? || t.Float?,
            specs.(sign := if c == '+' then Plus else if c == '-' then Minus else Space), b + 1, next)
    else if c == '#' then Enter(part, HashPart, IsArithmetic(t), specs.(alt := true), b + 1, next)
    else if c == '0' then ZeroTurn(b, t, specs, part, next)
    else if IsDigit(c) || c == '{' then WidthTurn(s, b, specs, part, next)
    else if c == '.' then PrecisionTurn(s, b, t, specs, part, next)
    else if c == 'L' then Enter(part, LocalePart, IsArithmetic(t), specs.(localized := true), b + 1, next)
    else if IsLetter(c) then
      if TakesLetter(t, c) then Return(specs.(presentation := As(c)), b + 1, next) else Stop(INVALID)
    else if c == '}' then Return(specs, b, next)
    else FillTurn(s, b, specs, part, next)
  }

  /** The specifications from b on, c being the character looked at first. */
  function SpecsFrom(s: string, b: nat, c: char, t: ArgType, specs: Specs, part: Part, next: int): (r: Parsed<Specs>)
    requires b < |s| && (c == s[b] || c == '\0')
    ensures r.Good? ==> b <= r.pos <= |s|
    decreases |s| - b
  {
    match SpecTurn(s, b, c, t, specs, part, next)
    case Stop(message) => Bad(message)
    case Return(specs', e, next') => Good(specs', e, next')
    case More(specs', e, part', next') =>
      if e == |s| then Good(specs', e, next') else SpecsFrom(s, e, s[e], t, specs', part', next')
  }

  /** A character followed by an alignment is a fill character, whatever it is. */
  function FirstChar(s: string, b: nat): (c: char)
    requires b < |s|
    ensures c == s[b] || c == '\0'
  {
    if b + 1 < |s| && ParseAlign(s[b + 1]) != NoAlign then '\0' else s[b]
  }

  function SpecsAt(s: string, b: nat, t: ArgType, next: int): (r: Parsed<Specs>)
    requires b <= |s|
    ensures r.Good? ==> b <= r.pos <= |s|
  {
    if b == |s| then Good(NO_SPECS, b, next) else SpecsFrom(s, b, FirstChar(s, b), t, NO_SPECS, Start, next)
  }

  method ParseFormatSpecs(s: string, begin: nat, t: ArgType, next: int) returns (r: Parsed<Specs>)
    requires begin <= |s|
    ensures r == SpecsAt(s, begin, t, next)
  {
    hide SpecTurn;
    var b, specs, part, id := begin, NO_SPECS, Start, next;
    if b == |s| {
      return Good(specs, b, id);
    }
    var c := FirstChar(s, b);
    while true
      invariant b < |s| && (c == s[b] || c == '\0')
      invariant SpecsAt(s, begin, t, next) == SpecsFrom(s, b, c, t, specs, part, id)
      decreases |s| - b
    {
      match SpecTurn(s, b, c, t, specs, part, id) {
        case Stop(message) =>
          return Bad(message);
        case Return(specs', e, id') =>
          return Good(specs', e, id');
        case More(specs', e, part', id') =>
          specs, b, part, id := specs', e, part', id';
      }
      if b == |s| {
        return Good(specs, b, id);
      }
      c := s[b];
    }
  }

  // ---- The compile-time parser restarts the context at 0 when ids are manual

  /** The contexts n at run time and m at compile time: equal, or manual against not used yet. */
  predicate SameContext(n: int, m: int)
  {
    n == m || (n == -1 && m == 0)
  }

  lemma DynamicSameContext(s: string, b: nat, d: Dynamic, n: int, m: int)
    requires b < |s| && SameContext(n, m) && ParseDynamicSpec(s, b, d, n).Good?
    ensures var r, r' := ParseDynamicSpec(s, b, d, n), ParseDynamicSpec(s, b, d, m);
      && r'.Good? && r'.value == r.value && r'.pos == r.pos && SameContext(r.next, r'.next)
      && (n == -1 ==> r.next == -1) && (n > 0 ==> r.next > 0)
  {}

  /** The two contexts take the same turn. */
  predicate SameTurn(r: Turn, r': Turn, n: int)
  {
    !r.Stop? ==>
      && !r'.Stop? && r' == r.(next := r'.next) && SameContext(r.next, r'.next)
      && (n == -1 ==> r.next == -1) && (n > 0 ==> r.next > 0)
  }

  lemma WidthSameContext(s: string, b: nat, specs: Specs, part: Part, n: int, m: int)
    requires b < |s| && (IsDigit(s[b]) || s[b] == '{') && SameContext(n, m)
    ensures SameTurn(WidthTurn(s, b, specs, part, n), WidthTurn(s, b, specs, part, m), n)
  {
    hide ParseDynamicSpec;
    var d := Dynamic(specs.width, specs.widthRef);
    if ParseDynamicSpec(s, b, d, n).Good? {
      DynamicSameContext(s, b, d, n, m);
    }
  }

  lemma PrecisionSameContext(s: string, b: nat, t: ArgType, specs: Specs, part: Part, n: int, m: int)
    requires b < |s| && SameContext(n, m)
    ensures SameTurn(PrecisionTurn(s, b, t, specs, part, n), PrecisionTurn(s, b, t, specs, part, m), n)
  {
    hide ParseDynamicSpec;
    var d := Dynamic(specs.precision, specs.precisionRef);
    if b + 1 < |s| && ParseDynamicSpec(s, b + 1, d, n).Good? {
      DynamicSameContext(s, b + 1, d, n, m);
    }
  }

  lemma FillSameContext(s: string, b: nat, t: ArgType, specs: Specs, part: Part, n: int, m: int)
    requires b < |s| && SameContext(n, m)
    ensures SameTurn(FillTurn(s, b, specs, part, n), FillTurn(s, b, specs, part, m), n)
    ensures SameTurn(ZeroTurn(b, t, specs, part, n), ZeroTurn(b, t, specs, part, m), n)
  {}

  lemma EnterSameContext(from: Part, to: Part, valid: bool, specs: Specs, pos: nat, n: int, m: int)
    requires SameContext(n, m)
    ensures SameTurn(Enter(from, to, valid, specs, pos, n), Enter(from, to, valid, specs, pos, m), n)
  {}

  lemma TurnSameContext(s: string, b: nat, c: char, t: ArgType, specs: Specs, part: Part, n: int, m: int)
    requires b < |s| && (c == s[b] || c == '\0') && SameContext(n, m)
    ensures SameTurn(SpecTurn(s, b, c, t, specs, part, n), SpecTurn(s, b, c, t, specs, part, m), n)
  {
    hide WidthTurn, PrecisionTurn, FillTurn, ZeroTurn, TakesLetter, Enter, IsLetter, ParseAlign;
    FillSameContext(s, b, t, specs, part, n, m);
    PrecisionSameContext(s, b, t, specs, part, n, m);
    if IsDigit(s[b]) || s[b] == '{' {
      WidthSameContext(s, b, specs, part, n, m);
    }
    EnterSameContext(part, AlignPart, true, specs.(align := ParseAlign(c)), b + 1, n, m);
    EnterSameContext(part, SignPart, t.SignedInt? || t.Float?,
                     specs.(sign := if c == '+' then Plus else if c == '-' then Minus else Space), b + 1, n, m);
    EnterSameContext(part, HashPart, IsArithmetic(t), specs.(alt := true), b + 1, n, m);
    EnterSameContext(part, LocalePart, IsArithmetic(t), specs.(localized := true), b + 1, n, m);
  }

  /** What the run-time context accepts, the compile-time context reads as the same specifications. */
  lemma {:induction false} SpecsSameContext(s: string, b: nat, c: char, t: ArgType, specs: Specs, part: Part,
                                              n: int, m: int)
    requires b < |s| && (c == s[b] || c == '\0') && SameContext(n, m) && SpecsFrom(s, b, c, t, specs, part, n).Good?
    ensures var r, r' := SpecsFrom(s, b, c, t, specs, part, n), SpecsFrom(s, b, c, t, specs, part, m);
      && r'.Good? && r'.value == r.value && r'.pos == r.pos && SameContext(r.next, r'.next)
      && (n == -1 ==> r.next == -1) && (n > 0 ==> r.next > 0)
    decreases |s| - b
  {
    hide SpecTurn;
    TurnSameContext(s, b, c, t, specs, part, n, m);
    match SpecTurn(s, b, c, t, specs, part, n)
    case Return(_, _, _) =>
    case More(specs', e, part', next) =>
      if e < |s| {
        SpecsSameContext(s, e, s[e], t, specs', part', next, SpecTurn(s, b, c, t, specs, part, m).next);
      }
    case Stop(_) => assert false;
  }
}
