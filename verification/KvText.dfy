/** The key-value text format: what the parser reads, what the printer writes, and the round trip. */
module KvText {
  import opened Texts

  const NUL: char := '\0'

  datatype ErrorCode = NoError | IncompleteBlock | UnexpectedStartOfBlock | UnexpectedEndOfBlock | IncompleteString

  /** A pair, or a block of further entries. */
  datatype Kv = Pair(key: string, value: string) | Block(key: string, children: Nodes)

  datatype Nodes = Nil | Cons(head: Kv, tail: Nodes)

  function Append(a: Nodes, b: Nodes): Nodes
  {
    match a
    case Nil => b
    case Cons(h, t) => Cons(h, Append(t, b))
  }

  function Len(ns: Nodes): nat
  {
    match ns
    case Nil => 0
    case Cons(_, t) => 1 + Len(t)
  }

  // ---- Scanning

  /** The input is a C string: reading past its end finds the terminator. */
  function At(s: string, i: nat): char
  {
    if i < |s| then s[i] else NUL
  }

  predicate NoNul(s: string)
  {
    forall i | 0 <= i < |s| :: s[i] != NUL
  }

  predicate IsWhitespace(c: char)
  {
    c < '!' || c > '~'
  }

  /** cc is the character after c; the caller for quoteless strings passes the successor of c instead. */
  predicate IsSpecialCharacter(c: char, cc: int)
  {
    c == '"' || c == '{' || c == '}' || (c == '/' && cc == '/' as int)
  }

  predicate IsComment(s: string, i: nat)
  {
    At(s, i) == '/' && At(s, i + 1) == '/'
  }

  function LineEnd(s: string, i: nat): (j: nat)
    requires i <= |s|
    ensures i <= j <= |s|
    ensures j < |s| ==> s[j] == '\r' || s[j] == '\n'
    decreases |s| - i
  {
    if i == |s| || s[i] == '\r' || s[i] == '\n' then i else LineEnd(s, i + 1)
  }

  /** The first position that is neither whitespace nor inside a line comment. */
  function SkipWs(s: string, i: nat): (j: nat)
    requires i <= |s|
    ensures i <= j <= |s|
    ensures j < |s| ==> !IsWhitespace(s[j]) && !IsComment(s, j)
    decreases |s| - i
  {
    if i == |s| then i
    else if IsWhitespace(s[i]) then SkipWs(s, i + 1)
    else if IsComment(s, i) then
      var e := LineEnd(s, i + 1);
      SkipWs(s, e)
    else i
  }

  /** The closing quote, or the end of the input. */
  function QuoteEnd(s: string, i: nat): (j: nat)
    requires i <= |s|
    ensures i <= j <= |s|
    ensures j < |s| ==> s[j] == '"'
    ensures forall k | i <= k < j :: s[k] != '"'
    decreases |s| - i
  {
    if i == |s| || s[i] == '"' then i else QuoteEnd(s, i + 1)
  }

  predicate EndsWord(c: char)
  {
    IsWhitespace(c) || IsSpecialCharacter(c, c as int + 1)
  }

  function WordEnd(s: string, i: nat): (j: nat)
    requires i <= |s|
    ensures i <= j <= |s|
    ensures i < |s| && !EndsWord(s[i]) ==> i < j
    decreases |s| - i
  {
    if i == |s| || EndsWord(s[i]) then i else WordEnd(s, i + 1)
  }

  // ---- Parsing

  /** A string token: its text is s[from..to] and reading goes on at next. */
  datatype Token = Token(from: nat, to: nat, next: nat) | Unclosed

  function ReadQuoted(s: string, i: nat): (t: Token)
    requires i < |s|
    ensures t.Token? ==> i < t.from <= t.to < t.next <= |s|
  {
    var e := QuoteEnd(s, i + 1);
    if e == |s| then Unclosed else Token(i + 1, e, e + 1)
  }

  function ReadWord(s: string, i: nat): (t: Token)
    requires i < |s|
    ensures t.Token? && t.from == i && t.to == t.next && i <= t.next <= |s|
    ensures !EndsWord(s[i]) ==> i < t.next
  {
    var e := WordEnd(s, i);
    Token(i, e, e)
  }

  function ReadString(s: string, i: nat): (t: Token)
    requires i < |s|
    ensures t.Token? ==> i <= t.from <= t.to <= t.next <= |s|
    ensures t.Token? && (s[i] == '"' || !EndsWord(s[i])) ==> i < t.next
  {
    if s[i] == '"' then ReadQuoted(s, i) else ReadWord(s, i)
  }

  /** What a run of the parser from a position leaves: the entries, where it stopped, and the bytes tallied. */
  datatype ParseResult = ParseResult(error: ErrorCode, nodes: Nodes, pos: nat, bytes: nat)

  function Failed(e: ErrorCode, pos: nat): ParseResult
  {
    ParseResult(e, Nil, pos, 0)
  }

  /** What stands at a position: the end of this list, a pair, or a key with an opening brace. */
  datatype Item =
    | Stop(result: ParseResult)
    | PairHere(pair: Kv, bytes: nat, next: nat)
    | BlockHere(key: string, inside: nat)

  /** The entry's value, once its key has been read. */
  function ReadValue(s: string, key: string, i: nat, isRoot: bool): (item: Item)
    requires i <= |s|
    ensures item.Stop? ==> i <= item.result.pos <= |s|
    ensures item.PairHere? ==> i <= item.next <= |s|
    ensures item.BlockHere? ==> i < item.inside <= |s|
  {
    var v := SkipWs(s, i);
    if v == |s| then
      Stop(if isRoot then ParseResult(NoError, Nil, v, |key| + 1) else Failed(IncompleteBlock, v))
    else if s[v] == '}' then Stop(Failed(UnexpectedEndOfBlock, v))
    else if s[v] == '{' then BlockHere(key, v + 1)
    else
      var value := ReadString(s, v);
      if value.Unclosed? then Stop(Failed(IncompleteString, |s|))
      else
        var text := s[value.from..value.to];
        PairHere(Pair(key, text), |key| + 1 + |text| + 1, value.next)
  }

  /** One turn of the parse loop, up to the contents of a block. */
  function ReadItem(s: string, i: nat, isRoot: bool): (item: Item)
    requires i <= |s|
    ensures item.Stop? ==> i <= item.result.pos <= |s|
    ensures item.PairHere? ==> i < item.next <= |s|
    ensures item.BlockHere? ==> i < item.inside <= |s|
  {
    var k := SkipWs(s, i);
    if k == |s| then
      Stop(if isRoot then ParseResult(NoError, Nil, k, 0) else Failed(IncompleteBlock, k))
    else if s[k] == '}' then
      Stop(if isRoot then Failed(UnexpectedEndOfBlock, k + 1) else ParseResult(NoError, Nil, k + 1, 0))
    else if s[k] == '{' then Stop(Failed(UnexpectedStartOfBlock, k))
    else
      var key := ReadString(s, k);
      if key.Unclosed? then Stop(Failed(IncompleteString, |s|))
      else ReadValue(s, s[key.from..key.to], key.next, isRoot)
  }

  /** One more entry in front of what the rest of the input gives. */
  function Prepend(kv: Kv, bytes: nat, rest: ParseResult): ParseResult
  {
    if rest.error == NoError then ParseResult(NoError, Cons(kv, rest.nodes), rest.pos, bytes + rest.bytes) else rest
  }

  /**
    The parser from position i on. The end of the input right after a value ends any block; the end
    after whitespace ends only the root.
   */
  function ParseList(s: string, i: nat, isRoot: bool): (r: ParseResult)
    requires i <= |s|
    ensures i <= r.pos <= |s|
    decreases |s| - i
  {
    if i == |s| then ParseResult(NoError, Nil, i, 0)
    else
      match ReadItem(s, i, isRoot)
      case Stop(r) => r
      case PairHere(pair, bytes, next) => Prepend(pair, bytes, ParseList(s, next, isRoot))
      case BlockHere(key, inside) =>
        var inner := ParseList(s, inside, false);
        if inner.error != NoError then Failed(inner.error, inner.pos)
        else Prepend(Block(key, inner.nodes), |key| + 1 + inner.bytes, ParseList(s, inner.pos, isRoot))
  }

  // ---- Printing

  function Tabs(n: nat): (s: string)
    ensures |s| == 4 * n
    ensures forall i | 0 <= i < |s| :: s[i] == ' '
  {
    if n == 0 then "" else "    " + Tabs(n - 1)
  }

  function Quoted(s: string): string
  {
    "\"" + s + "\""
  }

  function Print(ns: Nodes, tabs: nat): string
    decreases ns, 0
  {
    match ns
    case Nil => ""
    case Cons(h, t) => PrintOne(h, tabs) + Print(t, tabs)
  }

  function PrintOne(kv: Kv, tabs: nat): string
    decreases kv, 1
  {
    Tabs(tabs) + Quoted(kv.key) + " " +
    match kv
    case Pair(_, v) => Quoted(v) + "\n"
    case Block(_, cs) => "\n" + Tabs(tabs) + "{\n" + Print(cs, tabs + 1) + "\n" + Tabs(tabs) + "}\n"
  }

  lemma PrintedPair()
    ensures Print(Cons(Pair("b", "c"), Nil), 1) == "    \"b\" \"c\"\n"
  {
    assert Tabs(1) == "    ";
    hide Tabs;
    assert PrintOne(Pair("b", "c"), 1) == "    \"b\" \"c\"\n";
  }

  /** A pair inside a block, as it is printed. */
  lemma PrintedBlock()
    ensures Print(Cons(Block("a", Cons(Pair("b", "c"), Nil)), Nil), 0) == "\"a\" \n{\n    \"b\" \"c\"\n\n}\n"
  {
    PrintedPair();
    var block := Block("a", Cons(Pair("b", "c"), Nil));
    PrintCons(block, Nil, 0);
    PrintNil(0);
    assert Tabs(0) == "";
    hide Print, Tabs;
    assert PrintOne(block, 0) == "\"a\" \n{\n    \"b\" \"c\"\n\n}\n";
  }

  // ---- The text printed reads back as the same entries

  predicate Clean(s: string)
  {
    forall i | 0 <= i < |s| :: s[i] != NUL && s[i] != '"'
  }

  /** No key or value contains a quote or a terminator. */
  predicate Printable(ns: Nodes)
    decreases ns, 0
  {
    match ns
    case Nil => true
    case Cons(h, t) => PrintableOne(h) && Printable(t)
  }

  predicate PrintableOne(kv: Kv)
    decreases kv, 1
  {
    Clean(kv.key) &&
    match kv
    case Pair(_, v) => Clean(v)
    case Block(_, cs) => Printable(cs)
  }

  /** The bytes the strings of the entries take, each with its terminator. */
  function Bytes(ns: Nodes): nat
    decreases ns, 0
  {
    match ns
    case Nil => 0
    case Cons(h, t) => BytesOne(h) + Bytes(t)
  }

  function BytesOne(kv: Kv): nat
    decreases kv, 1
  {
    |kv.key| + 1 +
    match kv
    case Pair(_, v) => |v| + 1
    case Block(_, cs) => Bytes(cs)
  }

  /** Whitespace in front does not change what is parsed, as long as the input does not end there. */
  lemma {:induction false} SkipBlank(s: string, i: nat, n: nat)
    requires i + n <= |s| && forall k | i <= k < i + n :: IsWhitespace(s[k])
    ensures SkipWs(s, i) == SkipWs(s, i + n)
    decreases n
  {
    if n > 0 {
      SkipBlank(s, i + 1, n - 1);
    }
  }

  lemma ParseBlank(s: string, i: nat, n: nat, isRoot: bool)
    requires i + n <= |s| && (isRoot || i + n < |s|)
    requires forall k | i <= k < i + n :: IsWhitespace(s[k])
    ensures ParseList(s, i, isRoot) == ParseList(s, i + n, isRoot)
  {
    SkipBlank(s, i, n);
    if i + n < |s| {
      assert ReadItem(s, i, isRoot) == ReadItem(s, i + n, isRoot);
    }
  }

  lemma {:induction false} QuoteEndAt(s: string, i: nat, text: string)
    requires Stands(s, i, text + "\"") && Clean(text)
    ensures QuoteEnd(s, i) == i + |text|
    decreases |text|
  {
    StandsChar(s, i, text + "\"", 0);
    if |text| > 0 {
      assert text + "\"" == text[..1] + (text[1..] + "\"");
      StandsSplit(s, i, text[..1], text[1..] + "\"");
      QuoteEndAt(s, i + 1, text[1..]);
    }
  }

  /** A quoted clean string is read back whole. */
  lemma ReadQuotedAt(s: string, i: nat, text: string)
    requires Stands(s, i, Quoted(text)) && Clean(text)
    ensures i < |s| && s[i] == '"'
    ensures ReadString(s, i) == Token(i + 1, i + 1 + |text|, i + |text| + 2)
    ensures s[i + 1..i + 1 + |text|] == text
  {
    assert Quoted(text) == "\"" + (text + "\"");
    StandsChar(s, i, Quoted(text), 0);
    StandsSplit(s, i, "\"", text + "\"");
    StandsSplit(s, i + 1, text, "\"");
    QuoteEndAt(s, i + 1, text);
  }

  lemma TabsAt(s: string, i: nat, n: nat)
    requires Stands(s, i, Tabs(n))
    ensures forall k | i <= k < i + 4 * n :: IsWhitespace(s[k])
  {
    forall k | i <= k < i + 4 * n
      ensures IsWhitespace(s[k])
    {
      StandsChar(s, i, Tabs(n), k - i);
    }
  }

  /** Where the key's token of a printed entry is. */
  lemma KeyAt(s: string, i: nat, tabs: nat, key: string)
    requires Stands(s, i, Tabs(tabs) + Quoted(key)) && Clean(key)
    ensures var k := i + 4 * tabs;
      && SkipWs(s, i) == k && k < |s| && s[k] == '"'
      && ReadString(s, k) == Token(k + 1, k + 1 + |key|, k + |key| + 2)
      && s[k + 1..k + 1 + |key|] == key
  {
    StandsSplit(s, i, Tabs(tabs), Quoted(key));
    TabsAt(s, i, tabs);
    SkipBlank(s, i, 4 * tabs);
    ReadQuotedAt(s, i + 4 * tabs, key);
  }

  /** The printed entry up to its value. */
  lemma ItemAt(s: string, i: nat, tabs: nat, key: string, isRoot: bool)
    requires Stands(s, i, Tabs(tabs) + Quoted(key)) && Clean(key)
    ensures ReadItem(s, i, isRoot) == ReadValue(s, key, i + 4 * tabs + |key| + 2, isRoot)
    ensures i < |s|
  {
    hide SkipWs, ReadString, ReadValue, Tabs;
    KeyAt(s, i, tabs, key);
  }

  /** A printed pair parses to that pair, then parsing goes on behind it. */
  lemma ParsePair(s: string, i: nat, tabs: nat, kv: Kv, isRoot: bool)
    requires kv.Pair? && PrintableOne(kv)
    requires Stands(s, i, PrintOne(kv, tabs))
    requires isRoot || i + |PrintOne(kv, tabs)| < |s|
    ensures ParseList(s, i, isRoot) == Prepend(kv, BytesOne(kv), ParseList(s, i + |PrintOne(kv, tabs)|, isRoot))
  {
    hide ReadItem, ReadValue, ParseList, PrintOne, Tabs, Quoted, Prepend, Clean, QuoteEnd, SkipWs;
    var head := Tabs(tabs) + Quoted(kv.key);
    PairParts(tabs, kv.key, kv.value);
    StandsSplit(s, i, head, " " + (Quoted(kv.value) + "\n"));
    ItemAt(s, i, tabs, kv.key, isRoot);
    var n := i + |head|;
    PairValue(s, n, kv.key, kv.value, isRoot);
    ParseStep(s, i, isRoot);
    ParseBlank(s, n + |kv.value| + 3, 1, isRoot);
  }

  lemma PairParts(tabs: nat, key: string, value: string)
    ensures var head := Tabs(tabs) + Quoted(key);
      && |head| == 4 * tabs + |key| + 2
      && PrintOne(Pair(key, value), tabs) == head + (" " + (Quoted(value) + "\n"))
      && |PrintOne(Pair(key, value), tabs)| == |head| + |value| + 4
  {}

  lemma PairValue(s: string, n: nat, key: string, value: string, isRoot: bool)
    requires Clean(value) && Stands(s, n, " " + (Quoted(value) + "\n"))
    ensures var e := n + |value| + 3;
      && ReadValue(s, key, n, isRoot) == PairHere(Pair(key, value), |key| + 1 + |value| + 1, e)
      && e < |s| && s[e] == '\n'
  {
    StandsSplit(s, n, " ", Quoted(value) + "\n");
    StandsChar(s, n, " ", 0);
    SkipBlank(s, n, 1);
    StandsSplit(s, n + 1, Quoted(value), "\n");
    ReadQuotedAt(s, n + 1, value);
    StandsChar(s, n + 3 + |value|, "\n", 0);
  }

  lemma ParseEnd(s: string, isRoot: bool)
    ensures ParseList(s, |s|, isRoot) == ParseResult(NoError, Nil, |s|, 0)
  {}

  /** One unfolding of the parser. */
  lemma ParseStep(s: string, i: nat, isRoot: bool)
    requires i < |s|
    ensures var item, r := ReadItem(s, i, isRoot), ParseList(s, i, isRoot);
      && (item.Stop? ==> r == item.result)
      && (item.PairHere? ==> r == Prepend(item.pair, item.bytes, ParseList(s, item.next, isRoot)))
      && (item.BlockHere? ==>
          var inner := ParseList(s, item.inside, false);
          r == if inner.error != NoError then Failed(inner.error, inner.pos)
               else Prepend(Block(item.key, inner.nodes), |item.key| + 1 + inner.bytes,
                            ParseList(s, inner.pos, isRoot)))
  {
    hide ReadItem, Prepend;
  }

  /** The text between a block's key and its contents. */
  lemma BlockOpens(s: string, n: nat, tabs: nat, key: string, rest: string, isRoot: bool)
    requires Stands(s, n, " \n" + (Tabs(tabs) + ("{\n" + rest)))
    ensures var v := n + 2 + 4 * tabs;
      && ReadValue(s, key, n, isRoot) == BlockHere(key, v + 1)
      && v + 1 < |s| && s[v + 1] == '\n' && Stands(s, v + 2, rest)
  {
    hide Tabs, LineEnd;
    StandsSplit(s, n, " \n", Tabs(tabs) + ("{\n" + rest));
    StandsChar(s, n, " \n", 0);
    StandsChar(s, n, " \n", 1);
    StandsSplit(s, n + 2, Tabs(tabs), "{\n" + rest);
    TabsAt(s, n + 2, tabs);
    SkipBlank(s, n, 2 + 4 * tabs);
    var v := n + 2 + 4 * tabs;
    StandsSplit(s, v, "{\n", rest);
    StandsChar(s, v, "{\n", 0);
    StandsChar(s, v, "{\n", 1);
    assert SkipWs(s, v) == v;
  }

  /** A closing brace on its own line ends the block. */
  lemma BlockCloses(s: string, i: nat, tabs: nat)
    requires Stands(s, i, "\n" + (Tabs(tabs) + "}\n"))
    ensures ParseList(s, i, false) == ParseResult(NoError, Nil, i + 4 * tabs + 2, 0)
    ensures i + 4 * tabs + 2 < |s| && s[i + 4 * tabs + 2] == '\n'
  {
    StandsSplit(s, i, "\n", Tabs(tabs) + "}\n");
    StandsChar(s, i, "\n", 0);
    StandsSplit(s, i + 1, Tabs(tabs), "}\n");
    TabsAt(s, i + 1, tabs);
    SkipBlank(s, i, 1 + 4 * tabs);
    var v := i + 1 + 4 * tabs;
    StandsChar(s, v, "}\n", 0);
    StandsChar(s, v, "}\n", 1);
    assert SkipWs(s, v) == v;
  }

  /** A printed block, regrouped from the right. */
  lemma BlockParts(tabs: nat, key: string, cs: Nodes)
    ensures var head, rest := Tabs(tabs) + Quoted(key), Print(cs, tabs + 1) + ("\n" + (Tabs(tabs) + "}\n"));
      && |head| == 4 * tabs + |key| + 2
      && PrintOne(Block(key, cs), tabs) == head + (" \n" + (Tabs(tabs) + ("{\n" + rest)))
      && |PrintOne(Block(key, cs), tabs)| == |head| + 8 * tabs + 7 + |Print(cs, tabs + 1)|
  {
    hide Print, Tabs;
    Regroup(Tabs(tabs), Quoted(key), Print(cs, tabs + 1));
  }

  lemma Regroup(t: string, q: string, p: string)
    ensures t + q + " " + ("\n" + t + "{\n" + p + "\n" + t + "}\n")
      == (t + q) + (" \n" + (t + ("{\n" + (p + ("\n" + (t + "}\n"))))))
  {
    var c := "\n" + (t + "}\n");
    assert "\n" + t + "{\n" + p + "\n" + t + "}\n" == "\n" + (t + ("{\n" + (p + c)));
    assert " " + ("\n" + (t + ("{\n" + (p + c)))) == " \n" + (t + ("{\n" + (p + c)));
  }

  function PrependAll(ns: Nodes, rest: ParseResult): ParseResult
  {
    match ns
    case Nil => rest
    case Cons(h, t) => Prepend(h, BytesOne(h), PrependAll(t, rest))
  }

  lemma {:induction false} PrependAllMeans(ns: Nodes, rest: ParseResult)
    requires rest.error == NoError
    ensures PrependAll(ns, rest) == ParseResult(NoError, Append(ns, rest.nodes), rest.pos, Bytes(ns) + rest.bytes)
  {
    match ns
    case Nil =>
    case Cons(h, t) => PrependAllMeans(t, rest);
  }

  lemma {:induction false} AppendNil(ns: Nodes)
    ensures Append(ns, Nil) == ns
  {
    match ns
    case Nil =>
    case Cons(h, t) => AppendNil(t);
  }

  /** Where the parts of a printed block are. */
  lemma BlockAt(s: string, i: nat, tabs: nat, key: string, cs: Nodes, isRoot: bool)
    requires Clean(key) && Stands(s, i, PrintOne(Block(key, cs), tabs))
    ensures var v := i + 8 * tabs + |key| + 4;
      var c := v + 2 + |Print(cs, tabs + 1)|;
      && i < |s| && ReadItem(s, i, isRoot) == BlockHere(key, v + 1)
      && v + 1 < |s| && s[v + 1] == '\n'
      && Stands(s, v + 2, Print(cs, tabs + 1))
      && Stands(s, c, "\n" + (Tabs(tabs) + "}\n"))
      && c + 4 * tabs + 3 == i + |PrintOne(Block(key, cs), tabs)|
  {
    hide ReadItem, ReadValue, Print, PrintOne, Tabs, Quoted, SkipWs, Stands, Clean;
    var head, inner, close := Tabs(tabs) + Quoted(key), Print(cs, tabs + 1), "\n" + (Tabs(tabs) + "}\n");
    BlockParts(tabs, key, cs);
    StandsSplit(s, i, head, " \n" + (Tabs(tabs) + ("{\n" + (inner + close))));
    ItemAt(s, i, tabs, key, isRoot);
    var n := i + |head|;
    BlockOpens(s, n, tabs, key, inner + close, isRoot);
    StandsSplit(s, n + 4 + 4 * tabs, inner, close);
  }

  lemma {:induction false} ParseBlock(s: string, i: nat, tabs: nat, kv: Kv, isRoot: bool)
    requires kv.Block? && PrintableOne(kv)
    requires Stands(s, i, PrintOne(kv, tabs))
    requires isRoot || i + |PrintOne(kv, tabs)| < |s|
    ensures ParseList(s, i, isRoot) == Prepend(kv, BytesOne(kv), ParseList(s, i + |PrintOne(kv, tabs)|, isRoot))
    decreases kv, 1
  {
    hide ReadItem, ParseList, Print, PrintOne, Tabs, Prepend, Printable, PrintableOne, BytesOne, Bytes, PrependAll,
         Append, Stands;
    var key, cs := kv.key, kv.children;
    PrintableBlock(kv);
    BlockAt(s, i, tabs, key, cs, isRoot);
    ParseStep(s, i, isRoot);
    var v := i + 8 * tabs + |key| + 4;
    var c := v + 2 + |Print(cs, tabs + 1)|;
    BlockCloses(s, c, tabs);
    ParseBlank(s, v + 1, 1, false);
    ParsePrinted(s, v + 2, tabs + 1, cs, false);
    PrependAllMeans(cs, ParseList(s, c, false));
    AppendNil(cs);
    ParseBlank(s, c + 4 * tabs + 2, 1, isRoot);
  }

  lemma PrintableBlock(kv: Kv)
    requires kv.Block? && PrintableOne(kv)
    ensures Clean(kv.key) && Printable(kv.children)
    ensures BytesOne(kv) == |kv.key| + 1 + Bytes(kv.children)
  {}

  lemma PrintNil(tabs: nat)
    ensures Print(Nil, tabs) == ""
  {}

  lemma PrintCons(h: Kv, t: Nodes, tabs: nat)
    ensures Print(Cons(h, t), tabs) == PrintOne(h, tabs) + Print(t, tabs)
  {
    hide PrintOne;
  }

  /** Printed entries parse back, then parsing goes on behind them. */
  lemma {:induction false} ParsePrinted(s: string, i: nat, tabs: nat, ns: Nodes, isRoot: bool)
    requires Printable(ns)
    requires Stands(s, i, Print(ns, tabs))
    requires isRoot || i + |Print(ns, tabs)| < |s|
    ensures ParseList(s, i, isRoot) == PrependAll(ns, ParseList(s, i + |Print(ns, tabs)|, isRoot))
    decreases ns, 0
  {
    hide ParseList, ReadItem, PrintOne, Print, Bytes, BytesOne, Prepend, PrintableOne;
    match ns
    case Nil =>
      PrintNil(tabs);
    case Cons(h, t) =>
      PrintCons(h, t, tabs);
      StandsSplit(s, i, PrintOne(h, tabs), Print(t, tabs));
      ParsePrinted(s, i + |PrintOne(h, tabs)|, tabs, t, isRoot);
      if h.Pair? {
        ParsePair(s, i, tabs, h, isRoot);
      } else {
        ParseBlock(s, i, tabs, h, isRoot);
      }
  }

  /** No key or value contains a terminator. */
  predicate NoNuls(ns: Nodes)
    decreases ns, 0
  {
    match ns
    case Nil => true
    case Cons(h, t) => NoNulsOne(h) && NoNuls(t)
  }

  predicate NoNulsOne(kv: Kv)
    decreases kv, 1
  {
    NoNul(kv.key) &&
    match kv
    case Pair(_, v) => NoNul(v)
    case Block(_, cs) => NoNuls(cs)
  }

  lemma {:induction false} PrintableNoNuls(ns: Nodes)
    requires Printable(ns)
    ensures NoNuls(ns)
    decreases ns
  {
    match ns
    case Nil =>
    case Cons(h, t) =>
      PrintableNoNuls(t);
      if h.Block? {
        PrintableNoNuls(h.children);
      }
  }

  lemma {:induction false} PrintNoNul(ns: Nodes, tabs: nat)
    requires NoNuls(ns)
    ensures NoNul(Print(ns, tabs))
    decreases ns, 0
  {
    match ns
    case Nil =>
    case Cons(h, t) =>
      PrintNoNul(t, tabs);
      if h.Block? {
        PrintNoNul(h.children, tabs + 1);
      }
  }

  /** Parsing the printed text gives the same entries in the same order, and tallies their bytes. */
  lemma RoundTrip(ns: Nodes)
    requires Printable(ns)
    ensures var text := Print(ns, 0);
      NoNul(text) && ParseList(text, 0, true) == ParseResult(NoError, ns, |text|, Bytes(ns))
  {
    hide Print, PrintOne, Printable, PrintableOne, NoNuls, ParseList, ReadItem, PrependAll, Bytes, Append;
    var text := Print(ns, 0);
    PrintableNoNuls(ns);
    PrintNoNul(ns, 0);
    ParseEnd(text, true);
    assert text[0..0 + |text|] == text;
    ParsePrinted(text, 0, 0, ns, true);
    PrependAllMeans(ns, ParseList(text, |text|, true));
    AppendNil(ns);
  }

  /** Two forests of entries never print alike. */
  lemma PrintInjective(a: Nodes, b: Nodes)
    requires Printable(a) && Printable(b) && Print(a, 0) == Print(b, 0)
    ensures a == b
  {
    RoundTrip(a);
    RoundTrip(b);
  }

  /** The bytes of a key behind which the text ends: it has been tallied, but makes no entry. */
  function LoneKeyBytes(s: string, i: nat): nat
    requires i <= |s|
  {
    var k := SkipWs(s, i);
    if k == |s| || s[k] == '}' || s[k] == '{' then 0
    else
      var key := ReadString(s, k);
      if key.Token? && SkipWs(s, key.next) == |s| then key.to - key.from + 1 else 0
  }

  /** The same for the rest of a root's text, whose last key that may be. */
  function Dropped(s: string, i: nat): nat
    requires i <= |s|
    decreases |s| - i
  {
    if i == |s| then 0
    else
      match ReadItem(s, i, true)
      case Stop(_) => LoneKeyBytes(s, i)
      case PairHere(_, _, next) => Dropped(s, next)
      case BlockHere(_, inside) => Dropped(s, ParseList(s, inside, false).pos)
  }

  /** Whatever the parser accepts, the tally is the size of the strings, plus a last root key without a value. */
  lemma {:induction false} TallyCovers(s: string, i: nat, isRoot: bool)
    requires i <= |s|
    ensures var r := ParseList(s, i, isRoot);
      r.error == NoError ==> r.bytes == Bytes(r.nodes) + if isRoot then Dropped(s, i) else 0
    decreases |s| - i
  {
    if i < |s| {
      hide ReadValue;
      TallyOfItem(s, i, isRoot);
      match ReadItem(s, i, isRoot)
      case Stop(_) =>
      case PairHere(_, _, next) => TallyCovers(s, next, isRoot);
      case BlockHere(_, inside) =>
        TallyCovers(s, inside, false);
        TallyCovers(s, ParseList(s, inside, false).pos, isRoot);
    }
  }

  lemma TallyOfItem(s: string, i: nat, isRoot: bool)
    requires i < |s|
    ensures var item := ReadItem(s, i, isRoot);
      && (item.Stop? && item.result.error == NoError ==>
            item.result.nodes == Nil && item.result.bytes == if isRoot then LoneKeyBytes(s, i) else 0)
      && (item.PairHere? ==> item.bytes == BytesOne(item.pair))
  {}

  // ---- The length the printer reserves

  /** The reserved length: a tab counts five characters, and the space before a block's line is forgotten. */
  function CountedLength(ns: Nodes, tabs: nat): nat
    decreases ns, 0
  {
    match ns
    case Nil => 0
    case Cons(h, t) => CountedOne(h, tabs) + CountedLength(t, tabs)
  }

  function CountedOne(kv: Kv, tabs: nat): nat
    decreases kv, 1
  {
    tabs * 5 + (1 + |kv.key| + 1) +
    match kv
    case Pair(_, v) => 1 + 1 + |v| + 1 + 1
    case Block(_, cs) => (1 + tabs * 5 + 1 + 1) + CountedLength(cs, tabs + 1) + (1 + tabs * 5 + 1 + 1)
  }

  /** Reserved minus needed: every tab leaves one character over, every block is one short. */
  function Slack(ns: Nodes, tabs: nat): int
    decreases ns, 0
  {
    match ns
    case Nil => 0
    case Cons(h, t) => SlackOne(h, tabs) + Slack(t, tabs)
  }

  function SlackOne(kv: Kv, tabs: nat): int
    decreases kv, 1
  {
    match kv
    case Pair(_, _) => tabs
    case Block(_, cs) => 3 * tabs - 1 + Slack(cs, tabs + 1)
  }

  lemma {:induction false} CountedIsPrintedPlusSlack(ns: Nodes, tabs: nat)
    ensures CountedLength(ns, tabs) == |Print(ns, tabs)| + Slack(ns, tabs)
    decreases ns, 0
  {
    match ns
    case Nil =>
    case Cons(h, t) =>
      CountedIsPrintedPlusSlack(t, tabs);
      CountedOneIsPrintedPlusSlack(h, tabs);
  }

  lemma {:induction false} CountedOneIsPrintedPlusSlack(kv: Kv, tabs: nat)
    ensures CountedOne(kv, tabs) == |PrintOne(kv, tabs)| + SlackOne(kv, tabs)
    decreases kv, 1
  {
    match kv
    case Pair(k, v) => PairParts(tabs, k, v);
    case Block(k, cs) =>
      CountedIsPrintedPlusSlack(cs, tabs + 1);
      BlockParts(tabs, k, cs);
  }

  lemma {:induction false} SlackInside(ns: Nodes, tabs: nat)
    requires tabs > 0
    ensures Slack(ns, tabs) >= Len(ns)
    decreases ns
  {
    match ns
    case Nil =>
    case Cons(h, t) =>
      SlackInside(t, tabs);
      if h.Block? {
        SlackInside(h.children, tabs + 1);
      }
  }

  predicate NoEmptyBlock(ns: Nodes)
  {
    match ns
    case Nil => true
    case Cons(h, t) => (h.Block? ==> h.children != Nil) && NoEmptyBlock(t)
  }

  /** Without an empty block at the top the reserved length is enough. */
  lemma {:induction false} LengthSuffices(ns: Nodes)
    requires NoEmptyBlock(ns)
    ensures |Print(ns, 0)| <= CountedLength(ns, 0)
    decreases ns
  {
    CountedIsPrintedPlusSlack(ns, 0);
    TopSlack(ns);
  }

  lemma {:induction false} TopSlack(ns: Nodes)
    requires NoEmptyBlock(ns)
    ensures Slack(ns, 0) >= 0
  {
    match ns
    case Nil =>
    case Cons(h, t) =>
      TopSlack(t);
      if h.Block? {
        SlackInside(h.children, 1);
      }
  }

  /** A single empty block is one character too long for its reserved length. */
  lemma EmptyBlockOverflows(key: string)
    ensures var ns := Cons(Block(key, Nil), Nil);
      |Print(ns, 0)| == CountedLength(ns, 0) + 1
  {
    var block := Block(key, Nil);
    CountedIsPrintedPlusSlack(Cons(block, Nil), 0);
    assert Slack(Nil, 1) == 0 && Slack(Nil, 0) == 0;
    assert SlackOne(block, 0) == -1;
    assert Slack(Cons(block, Nil), 0) == SlackOne(block, 0) + Slack(Nil, 0);
  }
}
