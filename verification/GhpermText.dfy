/** Pieces of GHPERM text, and what the tokenizer makes of them. */
module GhpermText {
  import opened Basics
  import opened GhpermLexer

  datatype Item = Space(text: string) | Word(text: string) | Quoted(text: string) | Open | Close

  function Spell(item: Item): string {
    match item
    case Space(text) => text
    case Word(text) => text
    case Quoted(text) => "\"" + text + "\""
    case Open => "{"
    case Close => "}"
  }

  function Render(items: seq<Item>): string {
    if items == [] then "" else Spell(items[0]) + Render(items[1..])
  }

  function TokenOf(item: Item): seq<Token> {
    match item
    case Space(_) => []
    case Word(text) => [Identifier(text)]
    case Quoted(text) => [Text(text)]
    case Open => [LBrace]
    case Close => [RBrace]
  }

  function TokensOf(items: seq<Item>): seq<Token> {
    if items == [] then [] else TokenOf(items[0]) + TokensOf(items[1..])
  }

  lemma {:induction false} RenderConcat(a: seq<Item>, b: seq<Item>)
    ensures Render(a + b) == Render(a) + Render(b)
  {
    hide Spell;
    if a == [] {
      assert a + b == b;
      assert Render(a) == "";
    } else {
      RenderConcat(a[1..], b);
      assert (a + b)[1..] == a[1..] + b;
      assert Render(a + b) == Spell(a[0]) + (Render(a[1..]) + Render(b));
    }
  }

  lemma {:induction false} TokensOfConcat(a: seq<Item>, b: seq<Item>)
    ensures TokensOf(a + b) == TokensOf(a) + TokensOf(b)
  {
    hide TokenOf;
    if a == [] {
      assert a + b == b;
      assert TokensOf(a) == [];
    } else {
      TokensOfConcat(a[1..], b);
      assert (a + b)[1..] == a[1..] + b;
      assert TokensOf(a + b) == TokenOf(a[0]) + (TokensOf(a[1..]) + TokensOf(b));
    }
  }

  lemma {:induction false} TokensOfCons(item: Item, items: seq<Item>)
    ensures TokensOf([item] + items) == TokenOf(item) + TokensOf(items)
  {
  }

  lemma {:induction false} TokensOfThree(a: Item, b: Item, c: Item)
    ensures TokensOf([a, b, c]) == TokenOf(a) + (TokenOf(b) + TokenOf(c))
  {
    TokensOfCons(c, []);
    TokensOfCons(b, [c]);
    TokensOfCons(a, [b, c]);
    assert [a] + [b, c] == [a, b, c] && [b] + [c] == [b, c] && [c] + [] == [c];
  }

  lemma {:induction false} TokensOfFour(a: Item, b: Item, c: Item, d: Item)
    ensures TokensOf([a, b, c, d]) == TokenOf(a) + (TokenOf(b) + (TokenOf(c) + TokenOf(d)))
  {
    hide TokenOf, TokensOf;
    TokensOfThree(b, c, d);
    TokensOfCons(a, [b, c, d]);
    assert [a] + [b, c, d] == [a, b, c, d];
  }

  lemma {:induction false} TokensOfFive(a: Item, b: Item, c: Item, d: Item, e: Item)
    ensures TokensOf([a, b, c, d, e]) == TokenOf(a) + (TokenOf(b) + (TokenOf(c) + (TokenOf(d) + TokenOf(e))))
  {
    hide TokenOf, TokensOf;
    TokensOfFour(b, c, d, e);
    TokensOfCons(a, [b, c, d, e]);
    assert [a] + [b, c, d, e] == [a, b, c, d, e];
  }

  predicate IsWord(s: string) {
    s != "" && forall c | c in s :: IsWordChar(c)
  }

  predicate WellFormed(item: Item) {
    match item
    case Space(text) => forall c | c in text :: IsSpace(c)
    case Word(text) => IsWord(text)
    case Quoted(text) => Clean(text)
    case _ => true
  }

  /** The item keeps a word in front of it from running on. */
  predicate Separates(item: Item) {
    match item
    case Space(text) => text != ""
    case Word(_) => false
    case _ => true
  }

  /** Items are well formed, and every word is followed by something that ends it. */
  predicate Legible(items: seq<Item>) {
    && (forall i | 0 <= i < |items| :: WellFormed(items[i]))
    && (forall i | 0 <= i < |items| - 1 :: items[i].Word? ==> Separates(items[i + 1]))
  }

  lemma {:induction false} LegibleConcat(a: seq<Item>, b: seq<Item>)
    requires Legible(a) && Legible(b)
    requires a == [] || b == [] || !a[|a| - 1].Word? || Separates(b[0])
    ensures Legible(a + b)
  {
  }

  // ---------- the tokenizer on a text behind other text ----------

  lemma {:induction false} ShiftNextChar(a: string, b: string, i: nat)
    ensures NextChar(a + b, |a| + i) == Scan(NextChar(b, i).c, |a| + NextChar(b, i).i)
    decreases |b| - i, 1
  {
    if i < |b| && CharAt(b, i + 1) == '#' {
      ShiftSkipComment(a, b, '#', i + 1);
      ShiftNextChar(a, b, SkipComment(b, '#', i + 1).i);
    }
  }

  lemma {:induction false} ShiftSkipComment(a: string, b: string, c: char, i: nat)
    ensures SkipComment(a + b, c, |a| + i) == Scan(SkipComment(b, c, i).c, |a| + SkipComment(b, c, i).i)
    decreases |b| - i, if EndsComment(c) then 0 else 2
  {
    if !EndsComment(c) {
      ShiftNextChar(a, b, i);
      ShiftSkipComment(a, b, NextChar(b, i).c, NextChar(b, i).i);
    }
  }

  lemma {:induction false} ShiftSkipSpaceFrom(a: string, b: string, c: char, i: nat)
    ensures SkipSpaceFrom(a + b, c, |a| + i) == |a| + SkipSpaceFrom(b, c, i)
    decreases |b| - i, if IsSpace(c) then 1 else 0
  {
    if IsSpace(c) {
      ShiftNextChar(a, b, i);
      ShiftSkipSpaceFrom(a, b, NextChar(b, i).c, NextChar(b, i).i);
    }
  }

  lemma {:induction false} ShiftSkipSpace(a: string, b: string, i: nat)
    ensures SkipSpace(a + b, |a| + i) == |a| + SkipSpace(b, i)
  {
    assert CharAt(a + b, |a| + i) == CharAt(b, i);
    ShiftSkipSpaceFrom(a, b, CharAt(b, i), i);
  }

  ghost function Shifted(r: Lexed, n: nat): Lexed {
    match r
    case Lexed(t, i) => Lexed(t, n + i)
    case AtEnd => AtEnd
    case Bad(e, i) => Bad(e, n + i)
  }

  lemma {:induction false} ShiftWord(a: string, b: string, c: char, i: nat, text: string)
    ensures ReadWordFrom(a + b, c, |a| + i, text) == Shifted(ReadWordFrom(b, c, i, text), |a|)
    decreases |b| - i, if IsWordChar(c) then 1 else 0
  {
    if IsWordChar(c) {
      ShiftNextChar(a, b, i);
      ShiftWord(a, b, NextChar(b, i).c, NextChar(b, i).i, text + [c]);
    }
  }

  lemma {:induction false} ShiftText(a: string, b: string, c: char, i: nat, escape: bool, text: string)
    ensures ReadTextFrom(a + b, c, |a| + i, escape, text) == Shifted(ReadTextFrom(b, c, i, escape, text), |a|)
    decreases |b| - i, if c == NUL then 0 else if escape then 1 else 2
  {
    ShiftNextChar(a, b, i);
    if c == NUL {
    } else if !escape && c == '\\' {
      ShiftText(a, b, c, i, true, text);
    } else if !escape && c == '"' {
    } else {
      ShiftText(a, b, NextChar(b, i).c, NextChar(b, i).i, escape, text + [c]);
    }
  }

  lemma {:induction false} ShiftNextToken(a: string, b: string, i: nat)
    ensures NextToken(a + b, |a| + i) == Shifted(NextToken(b, i), |a|)
  {
    hide GhpermLexer.ReadToken, GhpermLexer.SkipSpace;
    ShiftReadToken(a, b, i);
    var r := ReadToken(b, i);
    if r.Lexed? {
      ShiftSkipSpace(a, b, r.i);
    }
  }

  lemma {:induction false} ShiftReadToken(a: string, b: string, i: nat)
    ensures ReadToken(a + b, |a| + i) == Shifted(ReadToken(b, i), |a|)
  {
    hide GhpermLexer.ReadTextFrom, GhpermLexer.ReadWordFrom, GhpermLexer.NextChar;
    var c := CharAt(b, i);
    assert CharAt(a + b, |a| + i) == c;
    ShiftNextChar(a, b, i);
    ShiftText(a, b, NextChar(b, i).c, NextChar(b, i).i, false, "");
    ShiftWord(a, b, c, i, "");
  }

  lemma {:induction false} ShiftTokens(a: string, b: string, i: nat)
    ensures Tokens(a + b, |a| + i) == Tokens(b, i)
    decreases |b| - i
  {
    ShiftNextToken(a, b, i);
    var r := NextToken(b, i);
    if r.Lexed? {
      ShiftTokens(a, b, r.i);
    }
  }

  /** Behind a token, the tokenizer goes on as if the rest were the whole text. */
  lemma {:induction false} AfterToken(a: string, b: string)
    ensures Tokens(a + b, SkipSpace(a + b, |a|)) == Lex(b)
  {
    ShiftSkipSpace(a, b, 0);
    ShiftTokens(a, b, SkipSpace(b, 0));
  }

  // ---------- one item at a time ----------

  /** No comment starts right here. */
  predicate NoComment(s: string) {
    s == "" || s[0] != '#'
  }

  lemma {:induction false} LexSpaces(w: string, rest: string)
    requires NoComment(rest) && forall c | c in w :: IsSpace(c)
    ensures Lex(w + rest) == Lex(rest)
  {
    if w == "" {
      assert w + rest == rest;
    } else {
      var tail := w[1..] + rest;
      LexSpaces(w[1..], rest);
      assert w + rest == [w[0]] + tail;
      assert IsSpace(w[0]);
      assert CharAt(w + rest, 1) == CharAt(tail, 0);
      assert SkipSpace(w + rest, 0) == SkipSpaceFrom(w + rest, CharAt(tail, 0), 1) == SkipSpace([w[0]] + tail, 1);
      AfterToken([w[0]], tail);
    }
  }

  lemma {:induction false} BraceFirst(data: string, brace: string, token: Token)
    requires brace <= data && ((brace == "{" && token == LBrace) || (brace == "}" && token == RBrace))
    ensures Lex(data) == More(token, Tokens(data, SkipSpace(data, NextChar(data, 0).i)))
  {
    assert CharAt(data, 0) == brace[0];
  }

  lemma {:induction false} LexBrace(brace: string, token: Token, rest: string)
    requires NoComment(rest) && ((brace == "{" && token == LBrace) || (brace == "}" && token == RBrace))
    ensures Lex(brace + rest) == More(token, Lex(rest))
  {
    var d := brace + rest;
    assert CharAt(d, 1) == CharAt(rest, 0);
    assert NextChar(d, 0).i == 1;
    BraceFirst(d, brace, token);
    AfterToken(brace, rest);
  }

  /** A word is read up to where the step behind its last character leads. */
  lemma {:induction false} ReadWord(data: string, w: string, i: nat, next: Scan)
    requires IsWord(w) && w <= data && i < |w|
    requires NextChar(data, |w| - 1) == next && !IsWordChar(next.c)
    ensures ReadWordFrom(data, w[i], i, w[..i]) == Lexed(Identifier(w), next.i)
    decreases |w| - i
  {
    assert w[i] in w && w[..i] + [w[i]] == w[..i + 1];
    if i + 1 < |w| {
      assert w[i + 1] in w && data[i + 1] == w[i + 1];
      ReadWord(data, w, i + 1, next);
    } else {
      assert w[..i + 1] == w;
    }
  }

  lemma {:induction false} WordFirst(data: string, w: string, next: Scan)
    requires IsWord(w) && w <= data && NextChar(data, |w| - 1) == next && !IsWordChar(next.c)
    ensures Lex(data) == More(Identifier(w), Tokens(data, SkipSpace(data, next.i)))
  {
    assert data[0] == w[0] && w[0] in w && w[..0] == "";
    ReadWord(data, w, 0, next);
  }

  lemma {:induction false} LexWord(w: string, rest: string)
    requires IsWord(w) && NoComment(rest) && (rest == "" || !IsWordChar(rest[0]))
    ensures Lex(w + rest) == More(Identifier(w), Lex(rest))
  {
    WordFirst(w + rest, w, Scan(CharAt(rest, 0), |w|));
    AfterToken(w, rest);
  }

  /** A string is read up to where the step behind its closing quote leads. */
  lemma {:induction false} ReadText(data: string, s: string, i: nat, next: Scan)
    requires Clean(s) && "\"" + s + "\"" <= data && i <= |s| && NextChar(data, |s| + 1) == next
    ensures ReadTextFrom(data, data[i + 1], i + 1, false, s[..i]) == Lexed(Text(s), next.i)
    decreases |s| - i
  {
    var q := "\"" + s + "\"";
    if i < |s| {
      assert data[i + 1] == q[i + 1] == s[i] && s[i] in s;
      assert s[..i] + [s[i]] == s[..i + 1];
      assert data[i + 2] == q[i + 2] && q[i + 2] != '#' by {
        if i + 1 < |s| { assert q[i + 2] == s[i + 1] && s[i + 1] in s; }
      }
      ReadText(data, s, i + 1, next);
    } else {
      assert data[i + 1] == q[i + 1] == '"';
      assert s[..i] == s;
    }
  }

  lemma {:induction false} QuotedFirst(data: string, s: string, next: Scan)
    requires Clean(s) && "\"" + s + "\"" <= data && NextChar(data, |s| + 1) == next
    ensures Lex(data) == More(Text(s), Tokens(data, SkipSpace(data, next.i)))
  {
    var q := "\"" + s + "\"";
    assert data[0] == q[0] == '"' && data[1] == q[1] && s[..0] == "";
    assert q[1] != '#' by {
      if s != "" { assert q[1] == s[0] && s[0] in s; }
    }
    ReadText(data, s, 0, next);
  }

  lemma {:induction false} LexQuoted(s: string, rest: string)
    requires Clean(s) && NoComment(rest)
    ensures Lex("\"" + s + "\"" + rest) == More(Text(s), Lex(rest))
  {
    var q := "\"" + s + "\"";
    var d := q + rest;
    assert CharAt(d, |s| + 2) == CharAt(rest, 0);
    QuotedFirst(d, s, Scan(CharAt(rest, 0), |s| + 2));
    AfterToken(q, rest);
  }

  lemma {:induction false} RenderStarts(items: seq<Item>, rest: string)
    requires Legible(items) && NoComment(rest)
    ensures NoComment(Render(items) + rest)
    ensures items != [] && Separates(items[0]) ==> Render(items) != "" && !IsWordChar(Render(items)[0])
  {
    hide Spell, WellFormed, Separates, IsWordChar;
    if items != [] {
      RenderStarts(items[1..], rest);
      assert Render(items) == Spell(items[0]) + Render(items[1..]);
      assert Render(items) + rest == Spell(items[0]) + (Render(items[1..]) + rest);
      assert WellFormed(items[0]);
      if Spell(items[0]) == "" {
        assert Render(items) + rest == Render(items[1..]) + rest;
      }
      SpellStarts(items[0]);
    }
  }

  lemma {:induction false} SpellStarts(item: Item)
    requires WellFormed(item)
    ensures Spell(item) != "" ==> Spell(item)[0] != '#'
    ensures Separates(item) ==> Spell(item) != "" && !IsWordChar(Spell(item)[0])
  {
    if Spell(item) != "" {
      assert Spell(item)[0] in Spell(item);
    }
  }

  /** A word at the end of the items is ended by what follows. */
  predicate EndsWord(items: seq<Item>, rest: string) {
    items != [] && items[|items| - 1].Word? && rest != "" ==> !IsWordChar(rest[0])
  }

  /** Legible text is read as the tokens it was written from, and then the rest is. */
  lemma {:induction false} LexLegible(items: seq<Item>, rest: string)
    requires Legible(items) && NoComment(rest) && EndsWord(items, rest)
    ensures Lex(Render(items) + rest) == Prepend(TokensOf(items), Lex(rest))
  {
    if items == [] {
      assert Render(items) + rest == rest;
    } else {
      var more := Render(items[1..]) + rest;
      assert Render(items) + rest == Spell(items[0]) + more;
      LexLegible(items[1..], rest);
      RenderStarts(items[1..], rest);
      PrependConcat(TokenOf(items[0]), TokensOf(items[1..]), Lex(rest));
      match items[0]
      case Space(text) => LexSpaces(text, more);
      case Word(text) =>
        if |items| > 1 {
          assert Separates(items[1]);
        } else {
          assert more == rest;
        }
        LexWord(text, more);
      case Quoted(text) => LexQuoted(text, more);
      case Open => LexBrace("{", LBrace, more);
      case Close => LexBrace("}", RBrace, more);
    }
  }

  lemma {:induction false} LexRender(items: seq<Item>)
    requires Legible(items)
    ensures Lex(Render(items)) == Prepend(TokensOf(items), End)
  {
    LexLegible(items, "");
    assert Render(items) + "" == Render(items);
    assert NextToken("", 0) == AtEnd;
  }
}
