/** Key-value text by its characters: words with and without quotes, blanks, comments, and what is an error. */
module KvWords {
  import opened KvText
  import opened Texts

  // ---- Words and what parts them

  predicate IsBlank(c: char)
  {
    !('!' <= c <= '~')
  }

  /** A word that needs no quotes. */
  predicate IsWord(w: string)
  {
    && |w| > 0 && (forall k | 0 <= k < |w| :: '!' <= w[k] <= '~' && w[k] !in {'"', '{', '}'})
    && !(|w| > 1 && w[0] == '/' && w[1] == '/')
  }

  /** Two slashes up to the first line end. */
  predicate IsCommentLine(t: string)
  {
    && |t| > 2 && t[0] == '/' && t[1] == '/' && t[|t| - 1] in {'\r', '\n'}
    && forall k | 0 <= k < |t| - 1 :: t[k] !in {'\r', '\n'}
  }

  /** Blanks and whole comment lines. */
  ghost predicate IsGap(g: string)
    decreases |g|
  {
    || g == ""
    || (IsBlank(g[0]) && IsGap(g[1..]))
    || exists n | 0 < n <= |g| :: IsCommentLine(g[..n]) && IsGap(g[n..])
  }

  /** A comment that the text ends in, or nothing. */
  predicate IsOpenComment(t: string)
  {
    t == "" || (|t| > 1 && t[0] == '/' && t[1] == '/' && forall k | 0 <= k < |t| :: t[k] !in {'\r', '\n'})
  }

  datatype Spelling = Bare(text: string) | InQuotes(text: string)

  function Spelt(w: Spelling): string
  {
    match w
    case Bare(text) => text
    case InQuotes(text) => "\"" + text + "\""
  }

  predicate IsSpelling(w: Spelling)
  {
    match w
    case Bare(text) => IsWord(text)
    case InQuotes(text) => forall k | 0 <= k < |text| :: text[k] != '"' && text[k] != NUL
  }

  /** Behind a word without quotes a gap starts with a blank, and only quotes and braces may follow at once. */
  predicate Apart(bare: bool, gap: string, bareNext: bool)
  {
    bare ==> if gap == "" then !bareNext else IsBlank(gap[0])
  }

  // ---- Texts without any particular layout

  /** Entries with the gaps between their words and braces. */
  datatype Layout =
    | End
    | PairOf(gap: string, key: Spelling, between: string, value: Spelling, rest: Layout)
    | BlockOf(gap: string, key: Spelling, between: string, inner: Layout, close: string, rest: Layout)

  function Laid(l: Layout): string
  {
    match l
    case End => ""
    case PairOf(g, k, b, v, rest) => g + (Spelt(k) + (b + (Spelt(v) + Laid(rest))))
    case BlockOf(g, k, b, inner, c, rest) => g + (Spelt(k) + (b + ("{" + (Laid(inner) + (c + ("}" + Laid(rest)))))))
  }

  function Meaning(l: Layout): Nodes
  {
    match l
    case End => Nil
    case PairOf(_, k, _, v, rest) => Cons(Pair(k.text, v.text), Meaning(rest))
    case BlockOf(_, k, _, inner, _, rest) => Cons(Block(k.text, Meaning(inner)), Meaning(rest))
  }

  /** Whether the last word has no quotes; bare says so of the one in front. */
  predicate EndsBare(l: Layout, bare: bool)
  {
    match l
    case End => bare
    case PairOf(_, _, _, v, rest) => EndsBare(rest, v.Bare?)
    case BlockOf(_, _, _, _, _, rest) => EndsBare(rest, false)
  }

  /** The gaps are gaps and keep the words apart. */
  ghost predicate Spaced(l: Layout, bare: bool)
  {
    match l
    case End => true
    case PairOf(g, k, b, v, rest) =>
      && IsGap(g) && IsSpelling(k) && Apart(bare, g, k.Bare?)
      && IsGap(b) && IsSpelling(v) && Apart(k.Bare?, b, v.Bare?)
      && Spaced(rest, v.Bare?)
    case BlockOf(g, k, b, inner, c, rest) =>
      && IsGap(g) && IsSpelling(k) && Apart(bare, g, k.Bare?)
      && IsGap(b) && Apart(k.Bare?, b, false)
      && Spaced(inner, false) && IsGap(c) && Apart(EndsBare(inner, false), c, false)
      && Spaced(rest, false)
  }

  // ---- How they are read

  /** What ends a word: the end, a blank, a quote or a brace. */
  predicate WordStops(s: string, i: nat)
  {
    i < |s| ==> IsBlank(s[i]) || s[i] in {'"', '{', '}'}
  }

  lemma {:induction false} LineEndAt(s: string, i: nat, e: nat)
    requires i <= e <= |s| && (e < |s| ==> s[e] in {'\r', '\n'}) && forall k | i <= k < e :: s[k] !in {'\r', '\n'}
    ensures LineEnd(s, i) == e
    decreases e - i
  {
    if i < e {
      LineEndAt(s, i + 1, e);
    }
  }

  /** A gap starts with a blank or a comment line. */
  lemma GapStarts(g: string) returns (n: nat)
    requires IsGap(g) && g != ""
    ensures 0 < n <= |g| && IsGap(g[n..]) && (IsCommentLine(g[..n]) || (n == 1 && IsBlank(g[0])))
  {
    hide IsCommentLine;
    if IsBlank(g[0]) && IsGap(g[1..]) {
      n := 1;
    } else {
      n :| 0 < n <= |g| && IsCommentLine(g[..n]) && IsGap(g[n..]);
    }
  }

  lemma {:induction false} GapIsSkipped(s: string, i: nat, g: string)
    requires IsGap(g) && Stands(s, i, g)
    ensures i + |g| <= |s| && SkipWs(s, i) == SkipWs(s, i + |g|)
    decreases |g|
  {
    hide IsGap, IsCommentLine, SkipWs;
    if g != "" {
      var n := GapStarts(g);
      assert g == g[..n] + g[n..];
      StandsSplit(s, i, g[..n], g[n..]);
      if IsCommentLine(g[..n]) {
        CommentIsSkipped(s, i, g[..n]);
      } else {
        BlankIsSkipped(s, i, g[..n]);
      }
      GapIsSkipped(s, i + n, g[n..]);
    }
  }

  lemma BlankIsSkipped(s: string, i: nat, t: string)
    requires |t| == 1 && IsBlank(t[0]) && Stands(s, i, t)
    ensures SkipWs(s, i) == SkipWs(s, i + 1)
  {
    StandsChar(s, i, t, 0);
  }

  lemma CommentIsSkipped(s: string, i: nat, t: string)
    requires IsCommentLine(t) && Stands(s, i, t)
    ensures SkipWs(s, i) == SkipWs(s, i + |t|)
  {
    var e := i + |t| - 1;
    forall k | i <= k <= e
      ensures s[k] == t[k - i]
    {
      StandsChar(s, i, t, k - i);
    }
    LineEndAt(s, i + 1, e);
  }

  lemma OpenCommentIsSkipped(s: string, i: nat, t: string)
    requires IsOpenComment(t) && Stands(s, i, t) && i + |t| == |s|
    ensures SkipWs(s, i) == |s|
  {
    if t != "" {
      forall k | i <= k < |s|
        ensures s[k] == t[k - i]
      {
        StandsChar(s, i, t, k - i);
      }
      LineEndAt(s, i + 1, |s|);
    }
  }

  lemma {:induction false} WordEndAt(s: string, i: nat, e: nat)
    requires i <= e <= |s| && WordStops(s, e) && forall k | i <= k < e :: '!' <= s[k] <= '~' && s[k] !in {'"', '{', '}'}
    ensures WordEnd(s, i) == e
    decreases e - i
  {
    if i < e {
      WordEndAt(s, i + 1, e);
    }
  }

  lemma NothingToSkip(s: string, i: nat)
    requires i < |s| && '!' <= s[i] <= '~' && !(s[i] == '/' && i + 1 < |s| && s[i + 1] == '/')
    ensures SkipWs(s, i) == i
  {}

  /** A word is read as its text, and reading goes on behind it. */
  lemma SpellingIsRead(s: string, i: nat, w: Spelling)
    requires IsSpelling(w) && Stands(s, i, Spelt(w)) && (w.Bare? ==> WordStops(s, i + |w.text|))
    ensures i < |s| && SkipWs(s, i) == i && s[i] !in {'{', '}'}
    ensures var t := ReadString(s, i); t.Token? && t.next == i + |Spelt(w)| && s[t.from..t.to] == w.text
  {
    hide SkipWs, ReadString, Stands, WordStops, IsWord;
    match w
    case Bare(text) => WordIsRead(s, i, text);
    case InQuotes(text) => QuotedIsRead(s, i, text);
  }

  lemma QuotedIsRead(s: string, i: nat, text: string)
    requires Stands(s, i, Spelt(InQuotes(text))) && Clean(text)
    ensures i < |s| && s[i] == '"' && SkipWs(s, i) == i
    ensures ReadString(s, i) == Token(i + 1, i + 1 + |text|, i + |text| + 2) && s[i + 1..i + 1 + |text|] == text
  {
    hide SkipWs, ReadString, Stands, Clean;
    ReadQuotedAt(s, i, text);
    NothingToSkip(s, i);
  }

  lemma WordIsRead(s: string, i: nat, w: string)
    requires IsWord(w) && Stands(s, i, w) && WordStops(s, i + |w|)
    ensures i < |s| && SkipWs(s, i) == i && s[i] !in {'{', '}'}
    ensures ReadString(s, i) == Token(i, i + |w|, i + |w|) && s[i..i + |w|] == w
  {
    hide SkipWs, WordEnd;
    forall k | i <= k < i + |w|
      ensures s[k] == w[k - i]
    {
      StandsChar(s, i, w, k - i);
    }
    WordEndAt(s, i, i + |w|);
    NothingToSkip(s, i);
  }

  /** Behind a word without quotes what follows stops it. */
  lemma GapStops(s: string, i: nat, g: string, next: string, bare: bool, bareNext: bool)
    requires bare && Apart(bare, g, bareNext) && Stands(s, i, g + next)
    requires !bareNext ==> next != "" && next[0] in {'"', '{', '}'}
    ensures WordStops(s, i)
  {
    if g + next != "" {
      StandsChar(s, i, g + next, 0);
    }
  }

  lemma BareLength(w: Spelling)
    ensures w.Bare? ==> |Spelt(w)| == |w.text|
  {}

  lemma SpeltStarts(w: Spelling)
    requires IsSpelling(w)
    ensures Spelt(w) != "" && (w.InQuotes? ==> Spelt(w)[0] == '"')
  {}

  lemma ThreeStand(s: string, i: nat, a: string, b: string, c: string)
    requires Stands(s, i, a + (b + c))
    ensures Stands(s, i, a) && Stands(s, i + |a|, b) && Stands(s, i + |a| + |b|, c) && i + |a| + |b| <= |s|
  {
    StandsSplit(s, i, a, b + c);
    StandsSplit(s, i + |a|, b, c);
  }

  lemma WordBehindGap(s: string, i: nat, g: string, w: Spelling)
    requires IsGap(g) && IsSpelling(w) && Stands(s, i, g) && Stands(s, i + |g|, Spelt(w))
    requires w.Bare? ==> WordStops(s, i + |g| + |Spelt(w)|)
    ensures SkipWs(s, i) == i + |g| < |s| && s[i + |g|] !in {'{', '}'}
    ensures var t := ReadString(s, i + |g|);
      t.Token? && t.next == i + |g| + |Spelt(w)| && s[t.from..t.to] == w.text
  {
    hide IsGap, SkipWs, ReadString, IsSpelling, Stands, WordStops, Spelt;
    BareLength(w);
    GapIsSkipped(s, i, g);
    SpellingIsRead(s, i + |g|, w);
  }

  /** A token where a key or a value may stand is that key or value. */
  lemma TokenTaken(s: string, i: nat, v: nat, text: string, e: nat, key: string, isRoot: bool)
    requires i <= |s| && SkipWs(s, i) == v < |s| && s[v] !in {'{', '}'}
    requires var t := ReadString(s, v); t.Token? && t.next == e && s[t.from..t.to] == text
    ensures ReadItem(s, i, isRoot) == ReadValue(s, text, e, isRoot)
    ensures ReadValue(s, key, i, isRoot) == PairHere(Pair(key, text), |key| + 1 + |text| + 1, e)
  {
    hide SkipWs, ReadString;
  }

  /** The key of an entry. */
  lemma KeyIsRead(s: string, i: nat, g: string, k: Spelling, next: string, isRoot: bool)
    requires IsGap(g) && IsSpelling(k) && Stands(s, i, g + (Spelt(k) + next))
    requires k.Bare? ==> WordStops(s, i + |g| + |Spelt(k)|)
    ensures var e := i + |g| + |Spelt(k)|;
      i < |s| && e <= |s| && Stands(s, e, next) && ReadItem(s, i, isRoot) == ReadValue(s, k.text, e, isRoot)
  {
    hide IsGap, SkipWs, ReadString, IsSpelling, Stands, ReadItem, ReadValue, WordStops, Spelt;
    ThreeStand(s, i, g, Spelt(k), next);
    WordBehindGap(s, i, g, k);
    TokenTaken(s, i, i + |g|, k.text, i + |g| + |Spelt(k)|, "", isRoot);
  }

  /** The value of a pair. */
  lemma ValueIsRead(s: string, i: nat, key: string, b: string, v: Spelling, next: string, isRoot: bool)
    requires IsGap(b) && IsSpelling(v) && Stands(s, i, b + (Spelt(v) + next))
    requires v.Bare? ==> WordStops(s, i + |b| + |Spelt(v)|)
    ensures var e := i + |b| + |Spelt(v)|;
      && e <= |s| && Stands(s, e, next)
      && ReadValue(s, key, i, isRoot) == PairHere(Pair(key, v.text), |key| + 1 + |v.text| + 1, e)
  {
    hide IsGap, SkipWs, ReadString, IsSpelling, Stands, ReadItem, ReadValue, WordStops, Spelt;
    ThreeStand(s, i, b, Spelt(v), next);
    WordBehindGap(s, i, b, v);
    TokenTaken(s, i, i + |b|, v.text, i + |b| + |Spelt(v)|, key, isRoot);
  }

  /** The brace behind a key. */
  lemma BraceIsRead(s: string, i: nat, key: string, b: string, next: string, isRoot: bool)
    requires IsGap(b) && Stands(s, i, b + ("{" + next))
    ensures var e := i + |b| + 1;
      e <= |s| && Stands(s, e, next) && ReadValue(s, key, i, isRoot) == BlockHere(key, e)
  {
    hide IsGap, Stands, ReadString;
    StandsSplit(s, i, b, "{" + next);
    StandsSplit(s, i + |b|, "{", next);
    StandsChar(s, i + |b|, "{", 0);
    GapIsSkipped(s, i, b);
    assert SkipWs(s, i + |b|) == i + |b|;
  }

  lemma CloseIsRead(s: string, i: nat, c: string, next: string)
    requires IsGap(c) && Stands(s, i, c + ("}" + next))
    ensures var e := i + |c| + 1;
      e <= |s| && Stands(s, e, next) && ParseList(s, i, false) == ParseResult(NoError, Nil, e, 0)
  {
    hide IsGap, Stands, ReadString;
    StandsSplit(s, i, c, "}" + next);
    StandsSplit(s, i + |c|, "}", next);
    StandsChar(s, i + |c|, "}", 0);
    GapIsSkipped(s, i, c);
    assert SkipWs(s, i + |c|) == i + |c|;
  }

  /** The first gap of further entries stops the word in front. */
  lemma LayoutStops(s: string, i: nat, l: Layout, bare: bool)
    requires bare && Spaced(l, bare) && Stands(s, i, Laid(l)) && (EndsBare(l, bare) ==> WordStops(s, i + |Laid(l)|))
    ensures WordStops(s, i)
  {
    hide IsGap, IsSpelling, Apart, Stands, WordStops;
    match l
    case End =>
    case PairOf(g, k, b, v, rest) =>
      SpeltStarts(k);
      GapStops(s, i, g, Spelt(k) + (b + (Spelt(v) + Laid(rest))), bare, k.Bare?);
    case BlockOf(g, k, b, inner, c, rest) =>
      SpeltStarts(k);
      GapStops(s, i, g, Spelt(k) + (b + ("{" + (Laid(inner) + (c + ("}" + Laid(rest)))))), bare, k.Bare?);
  }

  /** However the entries are laid out, they are read as those entries, and reading goes on behind them. */
  lemma {:induction false} ParsesLayout(s: string, i: nat, l: Layout, bare: bool, isRoot: bool)
    requires Spaced(l, bare) && Stands(s, i, Laid(l)) && (isRoot || i + |Laid(l)| < |s|)
    requires EndsBare(l, bare) ==> WordStops(s, i + |Laid(l)|)
    ensures i + |Laid(l)| <= |s|
    ensures ParseList(s, i, isRoot) == PrependAll(Meaning(l), ParseList(s, i + |Laid(l)|, isRoot))
    decreases l, 1
  {
    hide IsGap, IsSpelling, Apart, ReadItem, ReadValue, ParseList, Prepend, WordStops;
    match l
    case End =>
    case PairOf(g, k, b, v, rest) => ParsesPair(s, i, l, bare, isRoot);
    case BlockOf(g, k, b, inner, c, rest) => ParsesBlock(s, i, l, bare, isRoot);
  }

  /** Where the parts of a pair stand. */
  lemma PairStands(s: string, i: nat, l: Layout)
    requires l.PairOf? && Stands(s, i, Laid(l)) && IsSpelling(l.value)
    ensures var next := Spelt(l.value) + Laid(l.rest);
      var e := i + |l.gap| + |Spelt(l.key)|;
      && Stands(s, i, l.gap + (Spelt(l.key) + (l.between + next)))
      && Stands(s, e, l.between + next) && next != "" && (l.value.InQuotes? ==> next[0] == '"')
      && Stands(s, e + |l.between| + |Spelt(l.value)|, Laid(l.rest))
      && e + |l.between| + |Spelt(l.value)| + |Laid(l.rest)| == i + |Laid(l)|
  {
    hide Stands, IsSpelling, Spelt;
    var v, tail := Spelt(l.value), Laid(l.rest);
    assert Laid(l) == l.gap + (Spelt(l.key) + (l.between + (v + tail)));
    hide Laid;
    SpeltStarts(l.value);
    FourStand(s, i, l.gap, Spelt(l.key), l.between, v + tail);
    StandsSplit(s, i + |l.gap| + |Spelt(l.key)| + |l.between|, v, tail);
  }

  lemma FourStand(s: string, i: nat, a: string, b: string, c: string, d: string)
    requires Stands(s, i, a + (b + (c + d)))
    ensures Stands(s, i + |a| + |b|, c + d) && Stands(s, i + |a| + |b| + |c|, d)
    ensures |a + (b + (c + d))| == |a| + |b| + |c| + |d|
  {
    hide Stands;
    StandsSplit(s, i, a, b + (c + d));
    StandsSplit(s, i + |a|, b, c + d);
    StandsSplit(s, i + |a| + |b|, c, d);
  }

  lemma {:induction false} ParsesPair(s: string, i: nat, l: Layout, bare: bool, isRoot: bool)
    requires l.PairOf? && Spaced(l, bare) && Stands(s, i, Laid(l)) && (isRoot || i + |Laid(l)| < |s|)
    requires EndsBare(l, bare) ==> WordStops(s, i + |Laid(l)|)
    ensures i + |Laid(l)| <= |s|
    ensures ParseList(s, i, isRoot) == PrependAll(Meaning(l), ParseList(s, i + |Laid(l)|, isRoot))
    decreases l, 0
  {
    hide IsGap, IsSpelling, Apart, ReadItem, ReadValue, ParseList, Prepend, WordStops, Stands, Spelt, Laid;
    var k, b, v, rest := l.key, l.between, l.value, l.rest;
    var e1 := i + |l.gap| + |Spelt(k)|;
    var e2 := e1 + |b| + |Spelt(v)|;
    PairStands(s, i, l);
    if k.Bare? {
      GapStops(s, e1, b, Spelt(v) + Laid(rest), true, v.Bare?);
    }
    if v.Bare? {
      LayoutStops(s, e2, rest, true);
    }
    KeyIsRead(s, i, l.gap, k, b + (Spelt(v) + Laid(rest)), isRoot);
    ValueIsRead(s, e1, k.text, b, v, Laid(rest), isRoot);
    ParseStep(s, i, isRoot);
    ParsesLayout(s, e2, rest, v.Bare?, isRoot);
  }

  /** Where the parts of a block stand. */
  lemma BlockStands(s: string, i: nat, l: Layout)
    requires l.BlockOf? && Stands(s, i, Laid(l))
    ensures var body := Laid(l.inner) + (l.close + ("}" + Laid(l.rest)));
      var e := i + |l.gap| + |Spelt(l.key)|;
      var e' := e + |l.between| + 1 + |Laid(l.inner)|;
      && Stands(s, i, l.gap + (Spelt(l.key) + (l.between + ("{" + body))))
      && Stands(s, e, l.between + ("{" + body)) && Stands(s, e + |l.between| + 1, Laid(l.inner))
      && Stands(s, e', l.close + ("}" + Laid(l.rest))) && e' < |s|
      && Stands(s, e' + |l.close| + 1, Laid(l.rest))
      && e' + |l.close| + 1 + |Laid(l.rest)| == i + |Laid(l)|
  {
    hide Stands, Spelt;
    var inner, tail := Laid(l.inner), Laid(l.rest);
    var body := inner + (l.close + ("}" + tail));
    assert Laid(l) == l.gap + (Spelt(l.key) + (l.between + ("{" + body)));
    hide Laid;
    var e := i + |l.gap| + |Spelt(l.key)|;
    FourStand(s, i, l.gap, Spelt(l.key), l.between, "{" + body);
    BodyStands(s, e + |l.between|, inner, l.close, tail);
  }

  lemma BodyStands(s: string, i: nat, inner: string, c: string, tail: string)
    requires Stands(s, i, "{" + (inner + (c + ("}" + tail))))
    ensures Stands(s, i + 1, inner) && Stands(s, i + 1 + |inner|, c + ("}" + tail))
    ensures Stands(s, i + 1 + |inner| + |c| + 1, tail) && i + 1 + |inner| < |s|
    ensures |"{" + (inner + (c + ("}" + tail)))| == 1 + |inner| + |c| + 1 + |tail|
  {
    hide Stands;
    FourStand(s, i, "{", inner, c, "}" + tail);
    StandsSplit(s, i, "{", inner + (c + ("}" + tail)));
    StandsSplit(s, i + 1, inner, c + ("}" + tail));
    StandsSplit(s, i + 1 + |inner| + |c|, "}", tail);
  }

  lemma {:induction false} ParsesBlock(s: string, i: nat, l: Layout, bare: bool, isRoot: bool)
    requires l.BlockOf? && Spaced(l, bare) && Stands(s, i, Laid(l)) && (isRoot || i + |Laid(l)| < |s|)
    requires EndsBare(l, bare) ==> WordStops(s, i + |Laid(l)|)
    ensures i + |Laid(l)| <= |s|
    ensures ParseList(s, i, isRoot) == PrependAll(Meaning(l), ParseList(s, i + |Laid(l)|, isRoot))
    decreases l, 0
  {
    hide IsGap, IsSpelling, Apart, ReadItem, ReadValue, ParseList, Prepend, WordStops, Stands, Spelt, Laid;
    var k, b, inner, c, tail := l.key, l.between, l.inner, l.close, Laid(l.rest);
    var body := Laid(inner) + (c + ("}" + tail));
    var e1 := i + |l.gap| + |Spelt(k)|;
    var e2 := e1 + |b| + 1;
    var e3 := e2 + |Laid(inner)|;
    BlockStands(s, i, l);
    if k.Bare? {
      GapStops(s, e1, b, "{" + body, true, false);
    }
    KeyIsRead(s, i, l.gap, k, b + ("{" + body), isRoot);
    BraceIsRead(s, e1, k.text, b, body, isRoot);
    if EndsBare(inner, false) {
      GapStops(s, e3, c, "}" + tail, true, false);
    }
    CloseIsRead(s, e3, c, tail);
    ParseStep(s, i, isRoot);
    ParsesLayout(s, e2, inner, false, false);
    InnerIs(Meaning(inner), ParseList(s, e3, false));
    ParsesLayout(s, e3 + |c| + 1, l.rest, false, isRoot);
  }

  lemma InnerIs(ns: Nodes, end: ParseResult)
    requires end.error == NoError && end.nodes == Nil && end.bytes == 0
    ensures PrependAll(ns, end) == ParseResult(NoError, ns, end.pos, Bytes(ns))
  {
    PrependAllMeans(ns, end);
    AppendNil(ns);
  }

  // ---- Whole texts

  lemma NothingIsLeft(s: string, i: nat, g: string, t: string)
    requires IsGap(g) && IsOpenComment(t) && Stands(s, i, g + t) && i + |g + t| == |s|
    ensures SkipWs(s, i) == |s|
  {
    hide IsGap, IsOpenComment, SkipWs, Stands;
    StandsSplit(s, i, g, t);
    GapIsSkipped(s, i, g);
    OpenCommentIsSkipped(s, i + |g|, t);
  }

  lemma GapStopsHere(s: string, i: nat, g: string, bare: bool)
    requires bare && Apart(bare, g, false) && Stands(s, i, g) && i + |g| == |s|
    ensures WordStops(s, i)
  {
    if g != "" {
      StandsChar(s, i, g, 0);
    }
  }

  /**
    Entries laid out in any way are what the whole text is read as, with any blanks and comments at the
    end; the bytes of their strings are tallied.
   */
  lemma LayoutRoundTrip(l: Layout, g: string, t: string)
    requires Spaced(l, false) && IsGap(g) && IsOpenComment(t) && Apart(EndsBare(l, false), g + t, false)
    ensures var text := Laid(l) + (g + t);
      ParseList(text, 0, true) == ParseResult(NoError, Meaning(l), |text|, Bytes(Meaning(l)))
  {
    hide Spaced, IsGap, IsOpenComment, Apart, ParseList, Laid, Stands, WordStops, EndsBare;
    var s, e := Laid(l) + (g + t), |Laid(l)|;
    WholeStands(s);
    StandsSplit(s, 0, Laid(l), g + t);
    if EndsBare(l, false) {
      GapStopsHere(s, e, g + t, true);
    }
    ParsesLayout(s, 0, l, false, true);
    NothingIsLeft(s, e, g, t);
    EndIsRead(s, e);
    InnerIs(Meaning(l), ParseList(s, e, true));
  }

  lemma WholeStands(s: string)
    ensures Stands(s, 0, s)
  {
    assert s[0..|s|] == s;
  }

  lemma EndIsRead(s: string, i: nat)
    requires i <= |s| && SkipWs(s, i) == |s|
    ensures ParseList(s, i, true) == ParseResult(NoError, Nil, |s|, 0)
  {}

  /** A last key without a value is no entry of the root, and no error; its bytes are tallied all the same. */
  lemma DroppedKey(l: Layout, g: string, k: Spelling, b: string, t: string)
    requires Spaced(l, false) && IsGap(g) && IsSpelling(k) && Apart(EndsBare(l, false), g, k.Bare?)
    requires IsGap(b) && IsOpenComment(t) && Apart(k.Bare?, b + t, false)
    ensures var text := Laid(l) + (g + (Spelt(k) + (b + t)));
      ParseList(text, 0, true)
      == ParseResult(NoError, Meaning(l), |text|, Bytes(Meaning(l)) + |k.text| + 1)
  {
    hide Spaced, IsGap, IsOpenComment, Apart, ParseList, Laid, Stands, WordStops, EndsBare, IsSpelling, Spelt, ReadItem,
         ReadValue;
    var rest := g + (Spelt(k) + (b + t));
    var s, e := Laid(l) + rest, |Laid(l)|;
    var e' := e + |g| + |Spelt(k)|;
    WholeStands(s);
    StandsSplit(s, 0, Laid(l), rest);
    FourStand(s, e, g, Spelt(k), b, t);
    if k.Bare? {
      GapStopsHere(s, e', b + t, true);
    }
    SpeltStarts(k);
    if EndsBare(l, false) {
      GapStops(s, e, g, Spelt(k) + (b + t), true, k.Bare?);
    }
    ParsesLayout(s, 0, l, false, true);
    KeyIsRead(s, e, g, k, b + t, true);
    NothingIsLeft(s, e', b, t);
    KeyAlone(s, e', k.text);
    ParseStep(s, e, true);
    PrependAllMeans(Meaning(l), ParseList(s, e, true));
    AppendNil(Meaning(l));
  }

  lemma KeyAlone(s: string, i: nat, key: string)
    requires i <= |s| && SkipWs(s, i) == |s|
    ensures ReadValue(s, key, i, true) == Stop(ParseResult(NoError, Nil, |s|, |key| + 1))
  {}

  // ---- Errors, by what stands at a position

  predicate Unclosed(s: string, i: nat)
  {
    i < |s| && s[i] == '"' && forall k | i < k < |s| :: s[k] != '"'
  }

  /** Instead of a key. */
  lemma KeyErrors(s: string, i: nat, g: string, isRoot: bool)
    requires IsGap(g) && Stands(s, i, g)
    ensures var k, r := i + |g|, ParseList(s, i, isRoot);
      && (k < |s| && s[k] == '{' ==> r == Failed(UnexpectedStartOfBlock, k))
      && (k < |s| && s[k] == '}' ==>
          r == if isRoot then Failed(UnexpectedEndOfBlock, k + 1) else ParseResult(NoError, Nil, k + 1, 0))
      && (k == |s| ==>
          r == if isRoot || g == "" then ParseResult(NoError, Nil, k, 0) else Failed(IncompleteBlock, k))
      && (Unclosed(s, k) ==> r == Failed(IncompleteString, |s|))
  {
    hide IsGap, SkipWs, QuoteEnd, WordEnd;
    var k := i + |g|;
    GapIsSkipped(s, i, g);
    EndIsEnd(s);
    if k < |s| && s[k] in {'{', '}', '"'} {
      NothingToSkip(s, k);
    }
    if Unclosed(s, k) {
      QuoteNeverEnds(s, k + 1);
    }
  }

  lemma EndIsEnd(s: string)
    ensures SkipWs(s, |s|) == |s|
  {}

  lemma {:induction false} QuoteNeverEnds(s: string, i: nat)
    requires i <= |s| && forall k | i <= k < |s| :: s[k] != '"'
    ensures QuoteEnd(s, i) == |s|
    decreases |s| - i
  {
    if i < |s| {
      QuoteNeverEnds(s, i + 1);
    }
  }

  /** Instead of a value. */
  lemma ValueErrors(s: string, i: nat, g: string, k: Spelling, b: string, isRoot: bool)
    requires IsGap(g) && IsSpelling(k) && IsGap(b) && Stands(s, i, g + (Spelt(k) + b))
    requires k.Bare? ==> WordStops(s, i + |g| + |Spelt(k)|)
    ensures var v, r := i + |g| + |Spelt(k)| + |b|, ParseList(s, i, isRoot);
      && (v < |s| && s[v] == '}' ==> r == Failed(UnexpectedEndOfBlock, v))
      && (v == |s| ==>
          r == if isRoot then ParseResult(NoError, Nil, v, |k.text| + 1) else Failed(IncompleteBlock, v))
      && (Unclosed(s, v) ==> r == Failed(IncompleteString, |s|))
  {
    hide IsGap, IsSpelling, SkipWs, QuoteEnd, WordEnd, ParseList, ReadItem, WordStops, Stands, Spelt;
    var e := i + |g| + |Spelt(k)|;
    var v := e + |b|;
    KeyIsRead(s, i, g, k, b, isRoot);
    ParseStep(s, i, isRoot);
    GapIsSkipped(s, e, b);
    EndIsEnd(s);
    if v < |s| && s[v] in {'}', '"'} {
      NothingToSkip(s, v);
    }
    if Unclosed(s, v) {
      QuoteNeverEnds(s, v + 1);
    }
  }

  lemma {:induction false} PrependAllFails(ns: Nodes, rest: ParseResult)
    requires rest.error != NoError
    ensures PrependAll(ns, rest) == rest
  {
    match ns
    case Nil =>
    case Cons(h, t) => PrependAllFails(t, rest);
  }

  /** An error behind entries is the error of the whole list, at the same position. */
  lemma ErrorPasses(s: string, i: nat, l: Layout, bare: bool, isRoot: bool)
    requires Spaced(l, bare) && Stands(s, i, Laid(l)) && (isRoot || i + |Laid(l)| < |s|)
    requires EndsBare(l, bare) ==> WordStops(s, i + |Laid(l)|)
    ensures i + |Laid(l)| <= |s|
    ensures var r := ParseList(s, i + |Laid(l)|, isRoot); r.error != NoError ==> ParseList(s, i, isRoot) == r
  {
    hide Spaced, ParseList, Laid, Stands, WordStops, EndsBare;
    ParsesLayout(s, i, l, bare, isRoot);
    var r := ParseList(s, i + |Laid(l)|, isRoot);
    if r.error != NoError {
      PrependAllFails(Meaning(l), r);
    }
  }

  /** So is an error inside a block. */
  lemma BlockFails(s: string, i: nat, g: string, k: Spelling, b: string, next: string, isRoot: bool)
    requires IsGap(g) && IsSpelling(k) && IsGap(b) && Apart(k.Bare?, b, false)
    requires Stands(s, i, g + (Spelt(k) + (b + ("{" + next))))
    ensures var e := i + |g| + |Spelt(k)| + |b| + 1;
      && e <= |s|
      && var r := ParseList(s, e, false); r.error != NoError ==> ParseList(s, i, isRoot) == Failed(r.error, r.pos)
  {
    hide IsGap, IsSpelling, Spelt, ParseList, ReadItem, ReadValue, WordStops, Stands, Apart;
    var e := i + |g| + |Spelt(k)|;
    FourStand(s, i, g, Spelt(k), b, "{" + next);
    if k.Bare? {
      GapStops(s, e, b, "{" + next, true, false);
    }
    KeyIsRead(s, i, g, k, b + ("{" + next), isRoot);
    BraceIsRead(s, e, k.text, b, next, isRoot);
    ParseStep(s, i, isRoot);
  }
}
