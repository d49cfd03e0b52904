/** The scanning loops of the parser: each advances the read position exactly as the format says. */
module KvScan {
  import opened KvText

  /** Ends on the first character after whitespace and line comments. */
  method SkipWhitespace(str: string, pos: nat) returns (p: nat)
    requires pos <= |str|
    ensures p == SkipWs(str, pos)
  {
    p := pos;
    while true
      invariant pos <= p <= |str| && SkipWs(str, p) == SkipWs(str, pos)
      decreases |str| - p
    {
      while p < |str| && IsWhitespace(str[p])
        invariant pos <= p <= |str| && SkipWs(str, p) == SkipWs(str, pos)
      {
        p := p + 1;
      }
      if !IsComment(str, p) {
        return;
      }
      ghost var start := p;
      while p < |str| && str[p] != '\r' && str[p] != '\n'
        invariant start <= p <= |str| && LineEnd(str, p) == LineEnd(str, start + 1)
      {
        p := p + 1;
      }
    }
  }

  /** The opening quote is at pos. Without a closing one the position ends up at the end of the input. */
  method ReadQuotedString(str: string, pos: nat) returns (token: Token, p: nat)
    requires pos < |str|
    ensures token == ReadQuoted(str, pos)
    ensures p == if token.Token? then token.next else |str|
  {
    p := pos + 1;
    var from := p;
    while p < |str| && str[p] != '"'
      invariant from <= p <= |str| && QuoteEnd(str, p) == QuoteEnd(str, from)
    {
      p := p + 1;
    }
    if p == |str| {
      return Unclosed, p;
    }
    token := Token(from, p, p + 1);
    p := p + 1;
  }

  /** Reads until whitespace, a special character or the end of the input. */
  method ReadQuotelessString(str: string, pos: nat) returns (token: Token, p: nat)
    requires pos < |str|
    ensures token == ReadWord(str, pos) && p == token.next
  {
    p := pos;
    while p < |str| && !IsWhitespace(str[p]) && !IsSpecialCharacter(str[p], str[p] as int + 1)
      invariant pos <= p <= |str| && WordEnd(str, p) == WordEnd(str, pos)
    {
      p := p + 1;
    }
    token := Token(pos, p, p);
  }
}
