/** What is still read from a printed text that lost characters at its end. */
module KvCut {
  import opened KvText
  import opened Texts

  /**
    The entries are still read when d characters are gone: the text then ends right behind a value, a
    closing brace, or the opening brace of an empty block, at whatever depth. Ending in whitespace
    inside a block, or in the middle of anything, is an error or loses an entry.
   */
  predicate SafeCut(ns: Nodes, tabs: nat, d: nat)
    decreases ns, 0
  {
    match ns
    case Nil => false
    case Cons(h, t) => if t == Nil then SafeCutOne(h, tabs, d) else SafeCut(t, tabs, d)
  }

  predicate SafeCutOne(kv: Kv, tabs: nat, d: nat)
    decreases kv, 1
  {
    || d == 1
    || (kv.Block? &&
        if kv.children == Nil then d == 4 * tabs + 4
        else d > 4 * tabs + 3 && SafeCut(kv.children, tabs + 1, d - (4 * tabs + 3)))
  }

  predicate Reads(r: ParseResult, ns: Nodes)
  {
    r.error == NoError && r.nodes == ns
  }

  /** s ends, from i on, with t but for its last d characters. */
  predicate EndsCut(s: string, i: nat, t: string, d: nat)
  {
    i <= |s| && d <= |t| && s[i..] == t[..|t| - d]
  }

  lemma CutSplit(s: string, i: nat, a: string, b: string, d: nat)
    requires EndsCut(s, i, a + b, d)
    ensures d <= |b| ==> Stands(s, i, a) && EndsCut(s, i + |a|, b, d)
    ensures d >= |b| ==> EndsCut(s, i, a, d - |b|)
  {
    var t := a + b;
    if d <= |b| {
      assert s[i..][..|a|] == t[..|t| - d][..|a|] == a;
      assert s[i + |a|..] == s[i..][|a|..] == t[..|t| - d][|a|..] == b[..|b| - d];
      assert s[i..i + |a|] == s[i..][..|a|];
    }
    if d >= |b| {
      assert t[..|t| - d] == a[..|a| - (d - |b|)];
    }
  }

  lemma CutChar(s: string, i: nat, t: string, d: nat, k: nat)
    requires EndsCut(s, i, t, d) && k < |t| - d
    ensures i + k < |s| && s[i + k] == t[k]
  {
    assert s[i..][k] == t[..|t| - d][k];
  }

  // ---- Ends that are no value

  predicate BlankFrom(s: string, i: nat)
  {
    i <= |s| && forall k | i <= k < |s| :: IsWhitespace(s[k])
  }

  lemma BlankEnd(s: string, i: nat, isRoot: bool)
    requires BlankFrom(s, i)
    ensures SkipWs(s, i) == |s|
    ensures ParseList(s, i, isRoot) ==
      if i == |s| || isRoot then ParseResult(NoError, Nil, |s|, 0) else Failed(IncompleteBlock, |s|)
  {
    SkipBlank(s, i, |s| - i);
  }

  lemma BlankPart(s: string, i: nat, t: string, d: nat)
    requires EndsCut(s, i, t, d) && forall k | 0 <= k < |t| :: IsWhitespace(t[k])
    ensures BlankFrom(s, i)
  {
    forall k | i <= k < |s|
      ensures IsWhitespace(s[k])
    {
      CutChar(s, i, t, d, k - i);
    }
  }

  lemma {:induction false} NoQuoteEnd(s: string, i: nat)
    requires i <= |s| && forall k | i <= k < |s| :: s[k] != '"'
    ensures QuoteEnd(s, i) == |s|
    decreases |s| - i
  {
    if i < |s| {
      NoQuoteEnd(s, i + 1);
    }
  }

  /** A quoted string without its closing quote. */
  lemma OpenQuote(s: string, i: nat, text: string, d: nat)
    requires Clean(text) && EndsCut(s, i, Quoted(text), d) && 0 < d < |Quoted(text)|
    ensures i < |s| && s[i] == '"' && ReadString(s, i) == Unclosed
  {
    var q := Quoted(text);
    CutChar(s, i, q, d, 0);
    forall k | i + 1 <= k < |s|
      ensures s[k] != '"'
    {
      CutChar(s, i, q, d, k - i);
      assert q[k - i] == text[k - i - 1];
    }
    NoQuoteEnd(s, i + 1);
  }

  /** Cut inside the key: nothing, or an error. */
  lemma KeyCut(s: string, i: nat, tabs: nat, key: string, d: nat, isRoot: bool)
    requires Clean(key) && EndsCut(s, i, Tabs(tabs) + Quoted(key), d) && d > 0
    ensures var r := ParseList(s, i, isRoot);
      r.error == NoError ==> r.pos == |s| && r.nodes == Nil
  {
    hide Tabs;
    CutSplit(s, i, Tabs(tabs), Quoted(key), d);
    if d >= |Quoted(key)| {
      BlankPart(s, i, Tabs(tabs), d - |Quoted(key)|);
      BlankEnd(s, i, isRoot);
    } else {
      TabsAt(s, i, tabs);
      SkipBlank(s, i, 4 * tabs);
      OpenQuote(s, i + 4 * tabs, key, d);
      assert SkipWs(s, i + 4 * tabs) == i + 4 * tabs;
    }
  }

  /** Cut between the key and its value: the key is dropped, or an error. */
  lemma ValueCut(s: string, i: nat, tabs: nat, key: string, isRoot: bool)
    requires Clean(key) && Stands(s, i, Tabs(tabs) + Quoted(key))
    requires BlankFrom(s, i + 4 * tabs + |key| + 2)
    ensures var r := ParseList(s, i, isRoot);
      r.error == NoError ==> r.pos == |s| && r.nodes == Nil
  {
    hide ParseList, ReadItem;
    ItemAt(s, i, tabs, key, isRoot);
    BlankEnd(s, i + 4 * tabs + |key| + 2, isRoot);
    ParseStep(s, i, isRoot);
  }

  // ---- A pair that is cut

  lemma PairCut(s: string, i: nat, tabs: nat, kv: Kv, d: nat, isRoot: bool)
    requires kv.Pair? && PrintableOne(kv) && EndsCut(s, i, PrintOne(kv, tabs), d)
    ensures var r := ParseList(s, i, isRoot);
      && (r.error == NoError ==> r.pos == |s| && Len(r.nodes) <= 1)
      && (d > 0 ==> (Reads(r, Cons(kv, Nil)) <==> d == 1))
      && (d == 0 && !isRoot ==> r.error != NoError)
  {
    hide ParseList, ReadItem, ReadValue, PrintOne, Tabs, Quoted, Clean, EndsCut, BlankFrom, Stands;
    var head, value := Tabs(tabs) + Quoted(kv.key), Quoted(kv.value) + "\n";
    PairParts(tabs, kv.key, kv.value);
    QuotedLength(kv.value);
    var n := i + |head|;
    CutSplit(s, i, head, " " + value, d);
    if d > |" " + value| {
      KeyCut(s, i, tabs, kv.key, d - |" " + value|, isRoot);
    } else {
      CutSplit(s, n, " ", value, d);
      if d >= |value| {
        BlankPart(s, n, " ", d - |value|);
        ValueCut(s, i, tabs, kv.key, isRoot);
      } else {
        PairValueCut(s, i, tabs, kv.key, kv.value, d, isRoot);
      }
    }
  }

  lemma QuotedLength(t: string)
    ensures |Quoted(t)| == |t| + 2
  {}

  lemma PairValueCut(s: string, i: nat, tabs: nat, key: string, value: string, d: nat, isRoot: bool)
    requires Clean(key) && Clean(value) && Stands(s, i, Tabs(tabs) + Quoted(key))
    requires var n := i + 4 * tabs + |key| + 2;
      Stands(s, n, " ") && EndsCut(s, n + 1, Quoted(value) + "\n", d) && d < |value| + 3
    ensures var r := ParseList(s, i, isRoot);
      && (r.error == NoError ==> r.pos == |s| && r.nodes == Cons(Pair(key, value), Nil) && d <= 1)
      && (d == 1 ==> r.error == NoError)
      && (d == 0 && !isRoot ==> r.error != NoError)
  {
    hide ParseList, ReadItem, ReadValue, Tabs, Quoted, Clean, EndsCut, Stands, BlankFrom;
    var n := i + 4 * tabs + |key| + 2;
    ItemAt(s, i, tabs, key, isRoot);
    ParseStep(s, i, isRoot);
    ValueLeft(s, n, key, value, d, isRoot);
    if d <= 1 {
      BlankEnd(s, n + |value| + 3, isRoot);
    }
  }

  lemma ValueLeft(s: string, n: nat, key: string, value: string, d: nat, isRoot: bool)
    requires Clean(value)
    requires Stands(s, n, " ") && EndsCut(s, n + 1, Quoted(value) + "\n", d) && d < |value| + 3
    ensures n <= |s|
    ensures if d > 1 then ReadValue(s, key, n, isRoot) == Stop(Failed(IncompleteString, |s|))
      else var e := n + |value| + 3;
           && ReadValue(s, key, n, isRoot) == PairHere(Pair(key, value), |key| + 1 + |value| + 1, e)
           && BlankFrom(s, e) && |s| == e + 1 - d
  {
    hide SkipWs, ReadString;
    QuotedLength(value);
    SpaceBefore(s, n);
    CutSplit(s, n + 1, Quoted(value), "\n", d);
    if d > 1 {
      OpenQuote(s, n + 1, value, d - 1);
      QuoteStops(s, n + 1);
    } else {
      ReadQuotedAt(s, n + 1, value);
      QuoteStops(s, n + 1);
      BlankPart(s, n + |value| + 3, "\n", d);
    }
  }

  lemma SpaceBefore(s: string, n: nat)
    requires Stands(s, n, " ")
    ensures n < |s| && SkipWs(s, n) == SkipWs(s, n + 1)
  {
    StandsChar(s, n, " ", 0);
    SkipBlank(s, n, 1);
  }

  lemma QuoteStops(s: string, i: nat)
    requires i < |s| && s[i] == '"'
    ensures SkipWs(s, i) == i
  {}

  // ---- A block that is cut

  /** The end of a block's contents, with the closing line cut. */
  lemma CloseCut(s: string, c: nat, tabs: nat, d: nat)
    requires EndsCut(s, c, "\n" + (Tabs(tabs) + "}\n"), d) && d < 4 * tabs + 3
    ensures var r := ParseList(s, c, false);
      if d <= 1 then r == ParseResult(NoError, Nil, c + 4 * tabs + 2, 0) && |s| == c + 4 * tabs + 3 - d
                     && (d == 0 ==> s[|s| - 1] == '\n')
      else r.error != NoError
  {
    hide Tabs, ParseList;
    CutSplit(s, c, "\n", Tabs(tabs) + "}\n", d);
    StandsChar(s, c, "\n", 0);
    CutSplit(s, c + 1, Tabs(tabs), "}\n", d);
    if d >= 2 {
      BlankPart(s, c + 1, Tabs(tabs), d - 2);
      BlankEnd(s, c, false);
    } else {
      var v := c + 1 + 4 * tabs;
      TabsAt(s, c + 1, tabs);
      CutChar(s, v, "}\n", d, 0);
      ParseBlank(s, c, 1 + 4 * tabs, false);
      BraceEnds(s, v);
      if d == 0 {
        CutChar(s, v, "}\n", d, 1);
      }
    }
  }

  lemma BraceEnds(s: string, v: nat)
    requires v < |s| && s[v] == '}'
    ensures ParseList(s, v, false) == ParseResult(NoError, Nil, v + 1, 0)
  {
    assert SkipWs(s, v) == v;
  }

  /** The parse of a cut block, given that of what is left of its contents. */
  lemma BlockFrom(s: string, i: nat, tabs: nat, key: string, isRoot: bool)
    requires Clean(key) && Stands(s, i, Tabs(tabs) + Quoted(key))
    requires var n := i + 4 * tabs + |key| + 2; Stands(s, n, " \n" + Tabs(tabs) + "{")
    ensures var inside := i + 8 * tabs + |key| + 5;
      var inner, r := ParseList(s, inside, false), ParseList(s, i, isRoot);
      && inside <= |s|
      && (inner.error != NoError ==> r.error != NoError)
      && (inner.error == NoError ==>
          r == Prepend(Block(key, inner.nodes), |key| + 1 + inner.bytes, ParseList(s, inner.pos, isRoot)))
  {
    hide ParseList, ReadItem, ReadValue, Tabs, Quoted, Clean, Prepend, Stands;
    var n := i + 4 * tabs + |key| + 2;
    ItemAt(s, i, tabs, key, isRoot);
    ParseStep(s, i, isRoot);
    BraceAt(s, n, tabs, key, isRoot);
  }

  lemma BraceAt(s: string, n: nat, tabs: nat, key: string, isRoot: bool)
    requires Stands(s, n, " \n" + Tabs(tabs) + "{")
    ensures n + 4 * tabs + 3 <= |s| && ReadValue(s, key, n, isRoot) == BlockHere(key, n + 4 * tabs + 3)
  {
    hide Tabs, LineEnd, ReadString;
    StandsSplit(s, n, " \n" + Tabs(tabs), "{");
    LeadSkipped(s, n, tabs);
    var v := n + 2 + 4 * tabs;
    StandsChar(s, v, "{", 0);
    assert SkipWs(s, v) == v;
  }

  lemma LeadSkipped(s: string, n: nat, tabs: nat)
    requires Stands(s, n, " \n" + Tabs(tabs))
    ensures n + 2 + 4 * tabs <= |s| && SkipWs(s, n) == SkipWs(s, n + 2 + 4 * tabs)
  {
    hide Tabs, SkipWs;
    StandsSplit(s, n, " \n", Tabs(tabs));
    StandsChar(s, n, " \n", 0);
    StandsChar(s, n, " \n", 1);
    TabsAt(s, n + 2, tabs);
    SkipBlank(s, n, 2 + 4 * tabs);
  }

  lemma BlockParted(tabs: nat, key: string, cs: Nodes)
    ensures var head, lead := Tabs(tabs) + Quoted(key), " \n" + Tabs(tabs);
      var rest := Print(cs, tabs + 1) + ("\n" + (Tabs(tabs) + "}\n"));
      && PrintOne(Block(key, cs), tabs) == head + (lead + ("{" + ("\n" + rest)))
      && |head| == 4 * tabs + |key| + 2 && |rest| == |Print(cs, tabs + 1)| + 4 * tabs + 3
  {
    hide Print, PrintOne, Tabs;
    BlockParts(tabs, key, cs);
    var rest := Print(cs, tabs + 1) + ("\n" + (Tabs(tabs) + "}\n"));
    assert "{\n" + rest == "{" + ("\n" + rest);
    assert " \n" + (Tabs(tabs) + ("{\n" + rest)) == (" \n" + Tabs(tabs)) + ("{\n" + rest);
  }

  lemma BlockCut(s: string, i: nat, tabs: nat, kv: Kv, d: nat, isRoot: bool)
    requires kv.Block? && PrintableOne(kv) && EndsCut(s, i, PrintOne(kv, tabs), d)
    ensures var r := ParseList(s, i, isRoot);
      && (r.error == NoError ==> r.pos == |s| && Len(r.nodes) <= 1)
      && (d > 0 ==> (Reads(r, Cons(kv, Nil)) <==> SafeCutOne(kv, tabs, d)))
      && (d == 0 && !isRoot ==> r.error != NoError)
    decreases kv, 1
  {
    hide ParseList, ReadItem, ReadValue, Print, PrintOne, Tabs, Quoted, Clean, EndsCut, BlankFrom, Stands, SafeCut,
         SafeCutOne, Printable, PrintableOne, Prepend;
    var key, cs := kv.key, kv.children;
    PrintableBlock(kv);
    var head, lead := Tabs(tabs) + Quoted(key), " \n" + Tabs(tabs);
    var rest := Print(cs, tabs + 1) + ("\n" + (Tabs(tabs) + "}\n"));
    BlockParted(tabs, key, cs);
    var n := i + |head|;
    CutSplit(s, i, head, lead + ("{" + ("\n" + rest)), d);
    BeyondContents(kv, tabs, d);
    if d > |lead + ("{" + ("\n" + rest))| {
      KeyCut(s, i, tabs, key, d - |lead + ("{" + ("\n" + rest))|, isRoot);
    } else {
      CutSplit(s, n, lead, "{" + ("\n" + rest), d);
      if d >= |"{" + ("\n" + rest)| {
        LeadIsBlank(tabs);
        BlankPart(s, n, lead, d - |"{" + ("\n" + rest)|);
        ValueCut(s, i, tabs, key, isRoot);
      } else {
        CutSplit(s, n + |lead|, "{", "\n" + rest, d);
        StandsJoin(s, n, lead, "{");
        BlockFrom(s, i, tabs, key, isRoot);
        ContentsCut(s, n + |lead| + 1, tabs, kv, d);
        BlockDone(s, i, n + |lead| + 1, tabs, kv, d, isRoot);
      }
    }
  }

  lemma LeadIsBlank(tabs: nat)
    ensures var lead := " \n" + Tabs(tabs); forall k | 0 <= k < |lead| :: IsWhitespace(lead[k])
  {}

  /** No safe cut reaches the opening brace of a block with contents, or anything in front of a block. */
  lemma {:induction false} BeyondContents(kv: Kv, tabs: nat, d: nat)
    requires kv.Block?
    ensures d > |Print(kv.children, tabs + 1)| + 4 * tabs + 4 ==> !SafeCutOne(kv, tabs, d)
    ensures kv.children != Nil && d >= |Print(kv.children, tabs + 1)| + 4 * tabs + 3 ==> !SafeCutOne(kv, tabs, d)
    decreases kv, 1
  {
    if kv.children == Nil {
      PrintNil(tabs + 1);
    } else if d - (4 * tabs + 3) >= |Print(kv.children, tabs + 1)| {
      SafeIsInside(kv.children, tabs + 1, d - (4 * tabs + 3));
    }
  }

  lemma {:induction false} SafeIsInside(ns: Nodes, tabs: nat, d: int)
    requires ns != Nil && d >= |Print(ns, tabs)|
    ensures !SafeCut(ns, tabs, d)
    decreases ns, 0
  {
    var h, t := ns.head, ns.tail;
    PrintCons(h, t, tabs);
    if t != Nil {
      SafeIsInside(t, tabs, d);
    } else if h.Block? {
      BlockParted(tabs, h.key, h.children);
      BeyondContents(h, tabs, d);
    } else {
      PairParts(tabs, h.key, h.value);
    }
  }

  /** What is left of a block's contents, read from behind the opening brace. */
  lemma ContentsCut(s: string, inside: nat, tabs: nat, kv: Kv, d: nat)
    requires kv.Block? && Printable(kv.children)
    requires EndsCut(s, inside, "\n" + (Print(kv.children, tabs + 1) + ("\n" + (Tabs(tabs) + "}\n"))), d)
    ensures var inner := ParseList(s, inside, false);
      && (inner.error == NoError ==>
            inner.pos == if d == 0 then |s| - 1 else |s|)
      && (d > 0 ==> (Reads(inner, kv.children) <==> SafeCutOne(kv, tabs, d)))
      && (d == 0 ==> |s| > 0 && s[|s| - 1] == '\n' && Reads(inner, kv.children))
    decreases kv, 0
  {
    hide ParseList, Print, Tabs, EndsCut, BlankFrom, Stands, SafeCut, Printable;
    var cs, close := kv.children, "\n" + (Tabs(tabs) + "}\n");
    var p := Print(cs, tabs + 1);
    CutSplit(s, inside, "\n", p + close, d);
    if d > |p + close| {
      CutEmpty(s, inside, "\n" + (p + close), d);
      BlankEnd(s, inside, false);
      BeyondContents(kv, tabs, d);
      PrintNil(tabs + 1);
    } else {
      StandsChar(s, inside, "\n", 0);
      CutSplit(s, inside + 1, p, close, d);
      if d == |p + close| {
        CutEmpty(s, inside + 1, p + close, d);
        OnlyBlank(s, inside);
        BlankEnd(s, inside, false);
        SomeContents(cs, tabs);
        BeyondContents(kv, tabs, d);
      } else {
        CutNonEmpty(s, inside + 1, p + close, d);
        ParseBlank(s, inside, 1, false);
        if d >= |close| {
          SomeContents(cs, tabs);
          CutList(s, inside + 1, tabs + 1, cs, d - |close|, false);
        } else {
          CloseCut(s, inside + 1 + |p|, tabs, d);
          CutNonEmpty(s, inside + 1 + |p|, close, d);
          ParsePrinted(s, inside + 1, tabs + 1, cs, false);
          PrependCut(cs, ParseList(s, inside + 1 + |p|, false));
        }
      }
    }
  }

  lemma SomeContents(cs: Nodes, tabs: nat)
    ensures cs == Nil ==> |Print(cs, tabs + 1)| == 0
  {}

  lemma OnlyBlank(s: string, i: nat)
    requires i + 1 == |s| && s[i] == '\n'
    ensures BlankFrom(s, i)
  {}

  lemma CutEmpty(s: string, i: nat, t: string, d: nat)
    requires EndsCut(s, i, t, d) && d == |t|
    ensures i == |s| && BlankFrom(s, i)
  {}

  lemma CutNonEmpty(s: string, i: nat, t: string, d: nat)
    requires EndsCut(s, i, t, d) && d < |t|
    ensures i < |s|
  {}

  lemma {:induction false} PrependCut(ns: Nodes, rest: ParseResult)
    ensures rest.error == NoError ==>
      PrependAll(ns, rest) == ParseResult(NoError, Append(ns, rest.nodes), rest.pos, Bytes(ns) + rest.bytes)
    ensures rest.error == NoError && rest.nodes == Nil ==> PrependAll(ns, rest).nodes == ns
    ensures rest.error != NoError ==> PrependAll(ns, rest) == rest
  {
    if rest.error == NoError {
      PrependAllMeans(ns, rest);
      AppendNil(ns);
    } else {
      PrependFailed(ns, rest);
    }
  }

  lemma {:induction false} PrependFailed(ns: Nodes, rest: ParseResult)
    requires rest.error != NoError
    ensures PrependAll(ns, rest) == rest
  {
    match ns
    case Nil =>
    case Cons(h, t) => PrependFailed(t, rest);
  }

  /** The block itself, once its contents are known. */
  lemma BlockDone(s: string, i: nat, inside: nat, tabs: nat, kv: Kv, d: nat, isRoot: bool)
    requires kv.Block? && i <= inside <= |s|
    requires var inner, r := ParseList(s, inside, false), ParseList(s, i, isRoot);
      && (inner.error != NoError ==> r.error != NoError)
      && (inner.error == NoError ==>
          r == Prepend(Block(kv.key, inner.nodes), |kv.key| + 1 + inner.bytes, ParseList(s, inner.pos, isRoot)))
      && (inner.error == NoError ==> inner.pos == if d == 0 then |s| - 1 else |s|)
      && (d > 0 ==> (Reads(inner, kv.children) <==> SafeCutOne(kv, tabs, d)))
      && (d == 0 ==> |s| > 0 && s[|s| - 1] == '\n')
    ensures var r := ParseList(s, i, isRoot);
      && (r.error == NoError ==> r.pos == |s| && Len(r.nodes) <= 1)
      && (d > 0 ==> (Reads(r, Cons(kv, Nil)) <==> SafeCutOne(kv, tabs, d)))
      && (d == 0 && !isRoot ==> r.error != NoError)
  {
    hide ParseList, SafeCutOne;
    if d == 0 {
      OnlyBlank(s, |s| - 1);
      BlankEnd(s, |s| - 1, isRoot);
    } else {
      ParseEnd(s, isRoot);
    }
  }

  // ---- A list that is cut

  lemma {:induction false} CutList(s: string, i: nat, tabs: nat, ns: Nodes, d: nat, isRoot: bool)
    requires ns != Nil && Printable(ns) && EndsCut(s, i, Print(ns, tabs), d)
    ensures var r := ParseList(s, i, isRoot);
      && (r.error == NoError ==> r.pos == |s|)
      && (d > 0 ==> (Reads(r, ns) <==> SafeCut(ns, tabs, d)))
      && (d == 0 && !isRoot ==> r.error != NoError)
    decreases ns, 0
  {
    hide ParseList, Print, PrintOne, EndsCut, Stands, SafeCutOne, PrintableOne;
    var h, t := ns.head, ns.tail;
    PrintCons(h, t, tabs);
    CutSplit(s, i, PrintOne(h, tabs), Print(t, tabs), d);
    if t == Nil {
      PrintNil(tabs);
      CutOne(s, i, tabs, h, d, isRoot);
    } else if d >= |Print(t, tabs)| {
      CutOne(s, i, tabs, h, d - |Print(t, tabs)|, isRoot);
      SafeIsInside(t, tabs, d);
      SomePrinted(t, tabs);
    } else {
      CutNonEmpty(s, i + |PrintOne(h, tabs)|, Print(t, tabs), d);
      if h.Pair? {
        ParsePair(s, i, tabs, h, isRoot);
      } else {
        ParseBlock(s, i, tabs, h, isRoot);
      }
      CutList(s, i + |PrintOne(h, tabs)|, tabs, t, d, isRoot);
    }
  }

  lemma SomePrinted(t: Nodes, tabs: nat)
    requires t != Nil
    ensures |Print(t, tabs)| > 0 && Len(t) > 0
  {
    PrintCons(t.head, t.tail, tabs);
  }

  lemma CutOne(s: string, i: nat, tabs: nat, kv: Kv, d: nat, isRoot: bool)
    requires PrintableOne(kv) && EndsCut(s, i, PrintOne(kv, tabs), d)
    ensures var r := ParseList(s, i, isRoot);
      && (r.error == NoError ==> r.pos == |s| && Len(r.nodes) <= 1)
      && (d > 0 ==> (Reads(r, Cons(kv, Nil)) <==> SafeCutOne(kv, tabs, d)))
      && (d == 0 && !isRoot ==> r.error != NoError)
    decreases kv, 2
  {
    hide ParseList, PrintOne, EndsCut, PrintableOne, SafeCut;
    if kv.Pair? {
      PairCut(s, i, tabs, kv, d, isRoot);
    } else {
      BlockCut(s, i, tabs, kv, d, isRoot);
    }
  }

  // ---- The text in its reserved length

  /** Printed entries cut to their reserved length are read back exactly when the cut is none, or safe. */
  lemma ReservedReadsBack(ns: Nodes)
    requires Printable(ns)
    ensures var text := Print(ns, 0);
      var cut := if CountedLength(ns, 0) < |text| then text[..CountedLength(ns, 0)] else text;
      Reads(ParseList(cut, 0, true), ns) <==> Slack(ns, 0) >= 0 || SafeCut(ns, 0, -Slack(ns, 0))
  {
    hide ParseList, Print, Slack, CountedLength, SafeCut, Printable;
    CountedIsPrintedPlusSlack(ns, 0);
    var text := Print(ns, 0);
    if Slack(ns, 0) >= 0 {
      RoundTrip(ns);
    } else {
      NegativeIsSome(ns);
      var cut := text[..CountedLength(ns, 0)];
      assert cut[0..] == cut;
      CutList(cut, 0, 0, ns, -Slack(ns, 0), true);
    }
  }

  lemma NegativeIsSome(ns: Nodes)
    requires Slack(ns, 0) < 0
    ensures ns != Nil
  {}

  /** One empty block at the top loses its last line break only; a second one loses a closing brace. */
  lemma EmptyBlocks(first: string, second: string)
    requires Clean(first) && Clean(second)
    ensures var one, two := Cons(Block(first, Nil), Nil), Cons(Block(first, Nil), Cons(Block(second, Nil), Nil));
      && Printable(one) && Slack(one, 0) == -1 && SafeCut(one, 0, 1)
      && Printable(two) && Slack(two, 0) == -2 && !SafeCut(two, 0, 2)
  {
    hide Printable, Slack, SafeCut, Clean;
    var tail := Cons(Block(second, Nil), Nil);
    NilIsPrintable();
    EmptyBlockFirst(first, Nil, 1);
    EmptyBlockFirst(second, Nil, 2);
    EmptyBlockFirst(first, tail, 2);
  }

  lemma NilIsPrintable()
    ensures Printable(Nil)
  {}

  lemma EmptyBlockFirst(key: string, t: Nodes, d: nat)
    requires Clean(key) && Printable(t)
    ensures var ns := Cons(Block(key, Nil), t);
      && Printable(ns) && Slack(ns, 0) == Slack(t, 0) - 1 && Slack(Nil, 0) == 0
      && (SafeCut(ns, 0, d) <==> if t == Nil then d == 1 || d == 4 else SafeCut(t, 0, d))
  {
    var block := Block(key, Nil);
    assert Printable(Nil) && Slack(Nil, 1) == 0;
    assert SlackOne(block, 0) == -1;
  }
}
