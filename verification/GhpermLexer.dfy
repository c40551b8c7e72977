/** Characters and tokens of the GHPERM format (src/ghost/perms/parser.c, lines 8-266). */
module GhpermLexer {
  import opened Basics

  datatype Token = Identifier(text: string) | Text(text: string) | LBrace | RBrace

  datatype LexError = UnterminatedString | UnexpectedToken

  // ---------- characters ----------

  /** A character handed out by the scanner, and where the scanner then is. */
  datatype Scan = Scan(c: char, i: nat)

  predicate EndsComment(c: char) {
    c == '\n' || c == NUL
  }

  /** `permparser_nextchar`: steps to the next character; a `#` there starts a comment,
      which is skipped along with the character behind it. */
  function NextChar(data: string, i: nat): (r: Scan)
    ensures i < |data| ==> i < r.i <= |data|
    ensures i >= |data| ==> r == Scan(NUL, i)
    ensures r.c != '#' && (r.c == NUL || r.c in data)
    decreases |data| - i, 1
  {
    if i >= |data| then Scan(NUL, i)
    else
      var c := CharAt(data, i + 1);
      if c == '#' then
        var end := SkipComment(data, c, i + 1);
        Scan(end.c, NextChar(data, end.i).i)
      else Scan(c, i + 1)
  }

  function SkipComment(data: string, c: char, i: nat): (r: Scan)
    ensures EndsComment(r.c) && i <= r.i && (r.c == NUL || r.c == c || r.c in data)
    ensures i <= |data| ==> r.i <= |data|
    decreases |data| - i, if EndsComment(c) then 0 else 2
  {
    if EndsComment(c) then Scan(c, i)
    else
      var n := NextChar(data, i);
      SkipComment(data, n.c, n.i)
  }

  predicate IsSpace(c: char) {
    c == ' ' || c == '\t' || c == '\n' || c == '\r'
  }

  predicate IsWordChar(c: char) {
    '0' <= c <= '9' || 'a' <= c <= 'z' || 'A' <= c <= 'Z' || c == '_'
  }

  function SkipSpaceFrom(data: string, c: char, i: nat): (r: nat)
    ensures i <= r && (i <= |data| ==> r <= |data|)
    decreases |data| - i, if IsSpace(c) then 1 else 0
  {
    if !IsSpace(c) then i
    else
      var n := NextChar(data, i);
      SkipSpaceFrom(data, n.c, n.i)
  }

  /** `permparser_skipwhitespace` */
  function SkipSpace(data: string, i: nat): (r: nat)
    ensures i <= r && (i <= |data| ==> r <= |data|)
  {
    SkipSpaceFrom(data, CharAt(data, i), i)
  }

  // ---------- tokens ----------

  datatype Lexed = Lexed(token: Token, i: nat) | AtEnd | Bad(error: LexError, i: nat)

  function ReadWordFrom(data: string, c: char, i: nat, text: string): (r: Lexed)
    ensures r.Lexed? && r.token.Identifier? && i <= r.i && (i <= |data| ==> r.i <= |data|)
    ensures IsWordChar(c) && i < |data| ==> i < r.i
    decreases |data| - i, if IsWordChar(c) then 1 else 0
  {
    if !IsWordChar(c) then Lexed(Identifier(text), i)
    else
      var n := NextChar(data, i);
      ReadWordFrom(data, n.c, n.i, text + [c])
  }

  /** The loop of `permparser_readstring`. A backslash is kept, and from there on no
      character is special any more. */
  function ReadTextFrom(data: string, c: char, i: nat, escape: bool, text: string): (r: Lexed)
    ensures r.Lexed? ==> r.token.Text? && i <= r.i && (i <= |data| ==> r.i <= |data|)
    ensures r.Bad? ==> r.error == UnterminatedString
    ensures !r.AtEnd?
    decreases |data| - i, if c == NUL then 0 else if escape then 1 else 2
  {
    if c == NUL then Bad(UnterminatedString, i)
    else if !escape && c == '\\' then ReadTextFrom(data, c, i, true, text)
    else if !escape && c == '"' then Lexed(Text(text), NextChar(data, i).i)
    else
      var n := NextChar(data, i);
      ReadTextFrom(data, n.c, n.i, escape, text + [c])
  }

  /** The part of `gh_permparser_nexttoken` before white space is skipped. */
  function ReadToken(data: string, i: nat): (r: Lexed)
    ensures r.Lexed? ==> i < |data| && i < r.i <= |data|
  {
    var c := CharAt(data, i);
    if c == NUL then AtEnd
    else if c == '{' then Lexed(LBrace, NextChar(data, i).i)
    else if c == '}' then Lexed(RBrace, NextChar(data, i).i)
    else if c == '"' then
      var n := NextChar(data, i);
      ReadTextFrom(data, n.c, n.i, false, "")
    else if IsWordChar(c) then ReadWordFrom(data, c, i, "")
    else Bad(UnexpectedToken, i)
  }

  /** A token that is read consumes input. */
  function NextToken(data: string, i: nat): (r: Lexed)
    ensures r.Lexed? ==> i < r.i <= |data|
  {
    var r := ReadToken(data, i);
    if r.Lexed? then Lexed(r.token, SkipSpace(data, r.i)) else r
  }

  /** All the tokens to come, up to the end or the first error. */
  datatype Stream = End | Broken(error: LexError) | More(token: Token, rest: Stream)

  function Tokens(data: string, i: nat): Stream
    decreases |data| - i
  {
    var r := NextToken(data, i);
    match r
    case AtEnd => End
    case Bad(e, _) => Broken(e)
    case Lexed(token, i') => More(token, Tokens(data, i'))
  }

  /** The tokens of a whole file: the constructor skips leading white space. */
  function Lex(data: string): Stream {
    Tokens(data, SkipSpace(data, 0))
  }

  function Prepend(tokens: seq<Token>, s: Stream): Stream {
    if tokens == [] then s else More(tokens[0], Prepend(tokens[1..], s))
  }

  lemma {:induction false} PrependConcat(a: seq<Token>, b: seq<Token>, s: Stream)
    ensures Prepend(a + b, s) == Prepend(a, Prepend(b, s))
  {
    if a == [] {
      assert a + b == b;
    } else {
      PrependConcat(a[1..], b, s);
      assert (a + b)[1..] == a[1..] + b;
    }
  }

  // ---------- strings that survive being written and read ----------

  predicate Plain(c: char) {
    c != '"' && c != '\\' && c != '#' && c != NUL
  }

  predicate Clean(s: string) {
    forall c | c in s :: Plain(c)
  }

  ghost predicate CleanTexts(s: Stream)
    decreases s
  {
    s.More? ==> (s.token.Text? ==> Clean(s.token.text)) && CleanTexts(s.rest)
  }

  lemma {:induction false} StuckEscapeNeverEnds(data: string, c: char, i: nat, text: string)
    ensures ReadTextFrom(data, c, i, true, text).Bad?
    decreases |data| - i, if c == NUL then 0 else 1
  {
    if c != NUL {
      var n := NextChar(data, i);
      StuckEscapeNeverEnds(data, n.c, n.i, text + [c]);
    }
  }

  lemma {:induction false} ReadTextsAreClean(data: string, c: char, i: nat, text: string)
    requires Clean(text) && c != '#'
    ensures var r := ReadTextFrom(data, c, i, false, text); r.Lexed? ==> Clean(r.token.text)
    decreases |data| - i, if c == NUL then 0 else 1
  {
    if c == '\\' {
      StuckEscapeNeverEnds(data, c, i, text);
    } else if c != NUL && c != '"' {
      var n := NextChar(data, i);
      ReadTextsAreClean(data, n.c, n.i, text + [c]);
    }
  }

  /** Whatever the file: a string token never holds a quote, a backslash, a `#` or a NUL. */
  lemma {:induction false} TokensAreClean(data: string, i: nat)
    ensures CleanTexts(Tokens(data, i))
    decreases |data| - i
  {
    if NextToken(data, i).Lexed? {
      var n := NextChar(data, i);
      ReadTextsAreClean(data, n.c, n.i, "");
      TokensAreClean(data, NextToken(data, i).i);
    }
  }
}
