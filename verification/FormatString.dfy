/** Scanning a format string: the two loops, the replacement field, and the handler they drive. */
module FormatString {
  import opened FormatSpecs

  // ---- Handlers

  /** Where a run has got to, or where and why it was aborted. */
  datatype Outcome<S> = Done(st: S) | Aborted(at: S, message: string)

  /** The answer to an argument id, and to a field's specifications. */
  datatype ArgAnswer<S> = Arg(id: nat, st: S) | NoArg(message: string)
  datatype SpecAnswer<S> = SpecsEnd(pos: nat, st: S) | BadSpecs(message: string)

  /** A handler: how its state changes at each of the parser's calls. */
  datatype Handler<!S> = Handler(
    onText: (S, string) -> S,
    onArgId: (S, ArgId) -> ArgAnswer<S>,
    onField: (S, nat) -> Outcome<S>,
    onSpecs: (S, nat, string, nat) -> SpecAnswer<S>)

  /**
    Text is handled the same however it is cut, and the position after a field's specifications is one
    the parser may go on from.
   */
  ghost predicate Sound<S(!new)>(h: Handler<S>)
  {
    && (forall st: S :: h.onText(st, "") == st)
    && (forall st: S, a, b :: h.onText(h.onText(st, a), b) == h.onText(st, a + b))
    && (forall st: S, id: nat, s: string, b: nat | b <= |s| && h.onSpecs(st, id, s, b).SpecsEnd? ::
          b <= h.onSpecs(st, id, s, b).pos <= |s|)
  }

  // ---- A replacement field

  datatype FieldEnd<S> = FieldEnd(pos: nat, st: S) | FieldAborts(at: S, message: string)

  /** The field whose opening brace is at p. */
  function ParseReplacementField<S(!new)>(h: Handler<S>, s: string, p: nat, st: S): (r: FieldEnd<S>)
    requires p < |s| && Sound(h)
    ensures r.FieldEnd? ==> p < r.pos <= |s|
  {
    var b := p + 1;
    if b == |s| then FieldAborts(st, "invalid format string")
    else if s[b] == '}' then
      match h.onArgId(st, Auto)
      case NoArg(message) => FieldAborts(st, message)
      case Arg(id, st') => EndField(h.onField(st', id), b + 1)
    else if s[b] == '{' then FieldEnd(b + 1, h.onText(st, s[b..b + 1]))
    else
      match ReadArgId(s, b)
      case BadId => FieldAborts(st, "invalid format string")
      case Id(argId, e) =>
        match h.onArgId(st, argId)
        case NoArg(message) => FieldAborts(st, message)
        case Arg(id, st') =>
          if e < |s| && s[e] == '}' then EndField(h.onField(st', id), e + 1)
          else if e < |s| && s[e] == ':' then
            match h.onSpecs(st', id, s, e + 1)
            case BadSpecs(message) => FieldAborts(st', message)
            case SpecsEnd(e', st'') =>
              if e' == |s| || s[e'] != '}' then FieldAborts(st'', "unknown format specifier")
              else FieldEnd(e' + 1, st'')
          else FieldAborts(st', "missing '}' in format string")
  }

  function EndField<S>(o: Outcome<S>, pos: nat): FieldEnd<S>
  {
    match o
    case Done(st) => FieldEnd(pos, st)
    case Aborted(at, message) => FieldAborts(at, message)
  }

  // ---- What a format string means to a handler

  const UNMATCHED := "unmatched '}' in format string"

  /**
    The run from i on, with the text s[from..i] still to be handled. Text that an unmatched brace ends
    is never handled.
   */
  function Interpret<S(!new)>(h: Handler<S>, s: string, from: nat, i: nat, st: S): Outcome<S>
    requires from <= i <= |s| && Sound(h)
    decreases |s| - i
  {
    if i == |s| then Done(h.onText(st, s[from..i]))
    else if s[i] == '{' then
      match ParseReplacementField(h, s, i, h.onText(st, s[from..i]))
      case FieldAborts(at, message) => Aborted(at, message)
      case FieldEnd(e, st') => Interpret(h, s, e, e, st')
    else if s[i] == '}' then
      if i + 1 == |s| || s[i + 1] != '}' then Aborted(st, UNMATCHED)
      else Interpret(h, s, i + 2, i + 2, h.onText(st, s[from..i + 1]))
    else Interpret(h, s, from, i + 1, st)
  }

  predicate NoBraces(s: string, lo: nat, hi: nat)
  {
    hi <= |s| && forall k | lo <= k < hi :: s[k] != '{' && s[k] != '}'
  }

  /** Characters that are not braces only extend the text. */
  lemma {:induction false} InterpretSkips<S(!new)>(h: Handler<S>, s: string, from: nat, i: nat, j: nat, st: S)
    requires from <= i <= j && NoBraces(s, i, j) && Sound(h)
    ensures Interpret(h, s, from, i, st) == Interpret(h, s, from, j, st)
    decreases j - i
  {
    if i < j {
      InterpretSkips(h, s, from, i + 1, j, st);
    }
  }

  /** Text may be handled early if the run does not end in an unmatched brace before more of it comes. */
  lemma InterpretFlush<S(!new)>(h: Handler<S>, s: string, from: nat, i: nat, st: S)
    requires from <= i <= |s| && Sound(h) && (i < |s| ==> s[i] == '{')
    ensures Interpret(h, s, from, i, st) == Interpret(h, s, i, i, h.onText(st, s[from..i]))
  {
    hide ParseReplacementField;
    assert s[i..i] == "";
    assert s[from..i] + "" == s[from..i];
  }

  /** One unfolding at a closing brace. */
  lemma InterpretClose<S(!new)>(h: Handler<S>, s: string, from: nat, p: nat, st: S)
    requires from <= p < |s| && s[p] == '}' && Sound(h)
    ensures Interpret(h, s, from, p, st) ==
      if p + 1 == |s| || s[p + 1] != '}' then Aborted(st, UNMATCHED)
      else Interpret(h, s, p + 2, p + 2, h.onText(st, s[from..p + 1]))
  {}

  // ---- The loops

  /** The first c in s[from..to], or to. */
  method Find(s: string, from: nat, to: nat, c: char) returns (p: nat)
    requires from <= to <= |s|
    ensures from <= p <= to && (p < to ==> s[p] == c) && forall k | from <= k < p :: s[k] != c
  {
    p := from;
    while p < to && s[p] != c
      invariant from <= p <= to && forall k | from <= k < p :: s[k] != c
    {
      p := p + 1;
    }
  }

  /** The text between two fields, or behind the last: looks for closing braces only. */
  method Write<S(!new)>(h: Handler<S>, s: string, from: nat, to: nat, st: S) returns (o: Outcome<S>)
    requires from <= to <= |s| && Sound(h)
    requires (forall k | from <= k < to :: s[k] != '{') && (to < |s| ==> s[to] == '{')
    ensures o.Aborted? ==> Interpret(h, s, from, from, st) == o
    ensures o.Done? ==> Interpret(h, s, from, from, st) == Interpret(h, s, to, to, o.st)
  {
    hide ParseReplacementField;
    if from == to {
      return Done(st);
    }
    var st', b := st, from;
    while true
      invariant from <= b <= to && Interpret(h, s, from, from, st) == Interpret(h, s, b, b, st')
      decreases |s| - b
    {
      var p := Find(s, b, to, '}');
      InterpretSkips(h, s, b, b, p, st');
      if p == to {
        InterpretFlush(h, s, b, to, st');
        return Done(h.onText(st', s[b..to]));
      }
      InterpretClose(h, s, b, p, st');
      p := p + 1;
      if p == to || s[p] != '}' {
        return Aborted(st', UNMATCHED);
      }
      st', b := h.onText(st', s[b..p]), p + 1;
    }
  }

  const SHORT := 32

  /**
    Short strings are scanned character by character, long ones by looking for opening braces first and
    closing ones between them. Both do the same to every handler, on strings of any length.
   */
  method ParseFormatString<S(!new)>(h: Handler<S>, s: string, st: S) returns (o: Outcome<S>)
    requires Sound(h)
    ensures o == Interpret(h, s, 0, 0, st)
  {
    if |s| < SHORT {
      o := CharacterLoop(h, s, st);
    } else {
      o := FindLoop(h, s, st);
    }
  }

  method CharacterLoop<S(!new)>(h: Handler<S>, s: string, st: S) returns (o: Outcome<S>)
    requires Sound(h)
    ensures o == Interpret(h, s, 0, 0, st)
  {
    hide ParseReplacementField;
    var st', begin, p := st, 0, 0;
    while p != |s|
      invariant begin <= p <= |s| && Interpret(h, s, 0, 0, st) == Interpret(h, s, begin, p, st')
      decreases |s| - p
    {
      var c := s[p];
      p := p + 1;
      if c == '{' {
        st' := h.onText(st', s[begin..p - 1]);
        match ParseReplacementField(h, s, p - 1, st') {
          case FieldAborts(at, message) =>
            return Aborted(at, message);
          case FieldEnd(e, after) =>
            begin, p, st' := e, e, after;
        }
      } else if c == '}' {
        if p == |s| || s[p] != '}' {
          return Aborted(st', UNMATCHED);
        }
        st' := h.onText(st', s[begin..p]);
        p := p + 1;
        begin := p;
      }
    }
    o := Done(h.onText(st', s[begin..p]));
  }

  method FindLoop<S(!new)>(h: Handler<S>, s: string, st: S) returns (o: Outcome<S>)
    requires Sound(h)
    ensures o == Interpret(h, s, 0, 0, st)
  {
    hide ParseReplacementField;
    var st', begin := st, 0;
    while begin != |s|
      invariant begin <= |s| && Interpret(h, s, 0, 0, st) == Interpret(h, s, begin, begin, st')
      decreases |s| - begin
    {
      var p := begin;
      if s[begin] != '{' {
        p := Find(s, begin + 1, |s|, '{');
        if p == |s| {
          o := Write(h, s, begin, |s|, st');
          if o.Done? {
            NothingLeft(h, s, o.st);
          }
          return;
        }
      }
      o := Write(h, s, begin, p, st');
      if o.Aborted? {
        return;
      }
      InterpretField(h, s, p, o.st);
      match ParseReplacementField(h, s, p, o.st) {
        case FieldAborts(at, message) =>
          return Aborted(at, message);
        case FieldEnd(e, after) =>
          begin, st' := e, after;
      }
    }
    NothingLeft(h, s, st');
    o := Done(st');
  }

  lemma NothingLeft<S(!new)>(h: Handler<S>, s: string, st: S)
    requires Sound(h)
    ensures Interpret(h, s, |s|, |s|, st) == Done(st)
  {
    assert s[|s|..|s|] == "";
  }

  lemma InterpretField<S(!new)>(h: Handler<S>, s: string, p: nat, st: S)
    requires p < |s| && s[p] == '{' && Sound(h)
    ensures Interpret(h, s, p, p, st) ==
      match ParseReplacementField(h, s, p, st)
      case FieldAborts(at, message) => Aborted(at, message)
      case FieldEnd(e, st') => Interpret(h, s, e, e, st')
  {
    hide ParseReplacementField;
    assert s[p..p] == "";
  }

  // ---- Doubled braces

  function Doubled(t: string): (s: string)
  {
    if t == "" then ""
    else (if t[0] == '{' then "{{" else if t[0] == '}' then "}}" else t[..1]) + Doubled(t[1..])
  }

  /** A text with its braces doubled is handled as that text, with no fields. */
  lemma DoubledIsText<S(!new)>(h: Handler<S>, t: string, st: S)
    requires Sound(h)
    ensures Interpret(h, Doubled(t), 0, 0, st) == Done(h.onText(st, t))
  {
    var s := Doubled(t);
    assert s[0..] == s && s[0..0] == "";
    DoubledFrom(h, s, 0, 0, t, st);
  }

  lemma {:induction false} DoubledFrom<S(!new)>(h: Handler<S>, s: string, from: nat, i: nat, t: string, st: S)
    requires Sound(h) && from <= i <= |s| && s[i..] == Doubled(t)
    ensures Interpret(h, s, from, i, st) == Done(h.onText(st, s[from..i] + t))
    decreases |t|
  {
    hide Interpret, Sound, Doubled;
    var pending := s[from..i];
    DoubledHead(s, i, t);
    if t == "" {
      InterpretEnd(h, s, from, st);
      assert pending + t == pending;
    } else {
      var c, rest := t[0], t[1..];
      DoubledStep(h, s, from, i, c, st);
      assert (pending + [c]) + rest == pending + t;
      if c == '{' || c == '}' {
        DoubledFrom(h, s, i + 2, i + 2, rest, h.onText(st, pending + [c]));
        assert s[i + 2..i + 2] + rest == rest;
        TextTwice(h, st, pending + [c], rest);
      } else {
        DoubledFrom(h, s, from, i + 1, rest, st);
        assert s[from..i + 1] == pending + [c];
      }
    }
  }

  /** The first character of a doubled text and what follows it. */
  lemma DoubledHead(s: string, i: nat, t: string)
    requires i <= |s| && s[i..] == Doubled(t)
    ensures t == "" ==> i == |s|
    ensures t != "" ==> i < |s| && s[i] == t[0]
    ensures t != "" && (t[0] == '{' || t[0] == '}') ==>
      i + 1 < |s| && s[i + 1] == t[0] && s[i + 2..] == Doubled(t[1..])
    ensures t != "" && t[0] != '{' && t[0] != '}' ==> s[i + 1..] == Doubled(t[1..])
  {
    if t != "" {
      var c := t[0];
      assert s[i] == s[i..][0];
      if c == '{' || c == '}' {
        assert s[i..] == [c, c] + Doubled(t[1..]);
        assert s[i + 1] == s[i..][1] && s[i + 2..] == s[i..][2..];
      } else {
        assert s[i..] == [c] + Doubled(t[1..]);
        assert s[i + 1..] == s[i..][1..];
      }
    }
  }

  lemma InterpretEnd<S(!new)>(h: Handler<S>, s: string, from: nat, st: S)
    requires from <= |s| && Sound(h)
    ensures Interpret(h, s, from, |s|, st) == Done(h.onText(st, s[from..|s|]))
  {}

  lemma TextTwice<S(!new)>(h: Handler<S>, st: S, a: string, b: string)
    requires Sound(h)
    ensures h.onText(h.onText(st, a), b) == h.onText(st, a + b)
  {}

  /** A doubled brace is handled as one; another character is added to the pending text. */
  lemma DoubledStep<S(!new)>(h: Handler<S>, s: string, from: nat, i: nat, c: char, st: S)
    requires Sound(h) && from <= i < |s| && s[i] == c && (c == '{' || c == '}' ==> i + 1 < |s| && s[i + 1] == c)
    ensures if c == '{' || c == '}' then
        Interpret(h, s, from, i, st) == Interpret(h, s, i + 2, i + 2, h.onText(st, s[from..i] + [c]))
      else Interpret(h, s, from, i, st) == Interpret(h, s, from, i + 1, st)
  {
    if c == '{' {
      assert s[i + 1..i + 2] == [c];
    } else if c == '}' {
      assert s[from..i + 1] == s[from..i] + [c];
    }
  }
}
