/** When the first character of a GHPERM file is not missed (src/ghost/perms/parser.c, lines 14-266). */
module GhpermSpare {
  import opened Basics
  import opened GhpermLexer
  import opened GhpermText

  predicate StartsToken(c: char) {
    c == '"' || c == '{' || c == '}' || IsWordChar(c)
  }

  /** The first character that is not white space, or NUL. */
  function FirstSolid(s: string): char {
    if s == "" then NUL else if IsSpace(s[0]) then FirstSolid(s[1..]) else s[0]
  }

  /** The first character can go: it is white space, or tokenizing ends with it just as it
      ends without it. */
  predicate Spare(s: string)
    requires s != ""
  {
    || IsSpace(s[0])
    || (s[0] == NUL && FirstSolid(s[1..]) == NUL)
    || (s[0] != NUL && !StartsToken(s[0]) && FirstSolid(s[1..]) != NUL && !StartsToken(FirstSolid(s[1..])))
  }

  lemma {:induction false} NotItsOwnRest(t: Token, s: Stream)
    ensures More(t, s) != s
    decreases s
  {
    if s.More? {
      NotItsOwnRest(s.token, s.rest);
    }
  }

  lemma {:induction false} LexSolid(s: string)
    requires '#' !in s && s != "" && !IsSpace(s[0])
    ensures s[0] == NUL ==> Lex(s) == End
    ensures s[0] != NUL && !StartsToken(s[0]) ==> Lex(s) == Broken(UnexpectedToken)
    ensures s[0] == '{' ==> Lex(s) == More(LBrace, Lex(s[1..]))
    ensures s[0] == '}' ==> Lex(s) == More(RBrace, Lex(s[1..]))
    ensures s[0] == '"' ==> Lex(s) == Broken(UnterminatedString) || (Lex(s).More? && Lex(s).token.Text?)
    ensures IsWordChar(s[0]) ==> Lex(s).More? && Lex(s).token.Identifier?
  {
    assert s == [s[0]] + s[1..];
    assert SkipSpace(s, 0) == 0;
    if s[0] == '{' || s[0] == '}' {
      LexBrace([s[0]], if s[0] == '{' then LBrace else RBrace, s[1..]);
    }
  }

  lemma {:induction false} LexBySolid(s: string)
    requires '#' !in s
    ensures FirstSolid(s) == NUL <==> Lex(s) == End
    ensures FirstSolid(s) != NUL && !StartsToken(FirstSolid(s)) <==> Lex(s) == Broken(UnexpectedToken)
  {
    if s == "" {
      assert NextToken("", 0) == AtEnd;
    } else if IsSpace(s[0]) {
      assert s == [s[0]] + s[1..];
      LexSpaces([s[0]], s[1..]);
      LexBySolid(s[1..]);
    } else {
      LexSolid(s);
    }
  }

  /** The word at the start, whole. */
  function WordPrefix(s: string): (w: string)
    ensures w <= s && (forall c | c in w :: IsWordChar(c))
    ensures |w| < |s| ==> !IsWordChar(s[|w|])
  {
    if s == "" || !IsWordChar(s[0]) then ""
    else
      var w := WordPrefix(s[1..]);
      assert forall c | c in [s[0]] + w :: c == s[0] || c in w;
      [s[0]] + w
  }

  lemma {:induction false} WordDiffers(s: string)
    requires '#' !in s && s != "" && IsWordChar(s[0])
    ensures Lex(s[1..]) != Lex(s)
  {
    var w := WordPrefix(s);
    var rest := s[|w|..];
    assert s == w + rest && w[0] == s[0];
    LexWord(w, rest);
    if |w| > 1 {
      assert s[1..] == w[1..] + rest;
      assert forall c | c in w[1..] :: c in w;
      LexWord(w[1..], rest);
    } else {
      assert s[1..] == rest;
      NotItsOwnRest(Identifier(w), Lex(rest));
    }
  }

  lemma {:induction false} ReadTextInverse(data: string, i: nat, text: string)
    requires '#' !in data && i <= |data|
    ensures var r := ReadTextFrom(data, CharAt(data, i), i, false, text);
            r.Lexed? ==> exists k :: i <= k < |data| && data[k] == '"' && r == Lexed(Text(text + data[i..k]), k + 1)
    decreases |data| - i
  {
    var c := CharAt(data, i);
    if c == '\\' {
      StuckEscapeNeverEnds(data, c, i, text);
    } else if c == '"' {
      assert text + data[i..i] == text;
      assert NextChar(data, i).i == i + 1;
    } else if c != NUL {
      assert NextChar(data, i) == Scan(CharAt(data, i + 1), i + 1);
      ReadTextInverse(data, i + 1, text + [c]);
      forall k | i + 1 <= k < |data| ensures (text + [c]) + data[i + 1..k] == text + data[i..k] {
        assert data[i..k] == [c] + data[i + 1..k];
      }
    }
  }

  /** A string token stands at the start of the text as it is. */
  lemma {:induction false} QuotedInverse(s: string) returns (rest: string)
    requires '#' !in s && s != "" && s[0] == '"' && Lex(s).More?
    ensures Lex(s).token.Text? && s == "\"" + Lex(s).token.text + "\"" + rest && Lex(s).rest == Lex(rest)
  {
    assert SkipSpace(s, 0) == 0;
    assert NextChar(s, 0) == Scan(CharAt(s, 1), 1);
    var r := ReadTextFrom(s, CharAt(s, 1), 1, false, "");
    ReadTextInverse(s, 1, "");
    var k :| 1 <= k < |s| && s[k] == '"' && r == Lexed(Text("" + s[1..k]), k + 1);
    rest := s[k + 1..];
    assert s == "\"" + s[1..k] + "\"" + rest && "" + s[1..k] == s[1..k];
    assert s == s[..k + 1] + rest;
    AfterToken(s[..k + 1], rest);
  }

  lemma {:induction false} BlankPrefix(s: string) returns (b: string, x: string)
    ensures s == b + x && (forall c | c in b :: IsSpace(c)) && (x == "" || !IsSpace(x[0]))
    ensures forall c | c in x :: c in s
  {
    if s == "" || !IsSpace(s[0]) {
      b, x := "", s;
    } else {
      b, x := BlankPrefix(s[1..]);
      b := [s[0]] + b;
    }
  }

  lemma {:induction false} LexQuotedSpaces(b: string, rest: string)
    requires '#' !in rest && forall c | c in b :: IsSpace(c)
    ensures Lex("\"" + b + "\"" + rest) == More(Text(b), Lex(rest)) && Lex(b + rest) == Lex(rest)
  {
    LexQuoted(b, rest);
    LexSpaces(b, rest);
  }

  lemma {:induction false} QuoteDiffers(s: string)
    requires '#' !in s && s != "" && s[0] == '"'
    ensures Lex(s[1..]) != Lex(s)
    decreases |s|, 1
  {
    hide GhpermLexer.Lex;
    var b, x := BlankPrefix(s[1..]);
    assert forall c | c in x :: c in s[1..] && c in s;
    LexSpaces(b, x);
    LexSolid(s);
    if x == "" {
      LexBySolid("");
    } else {
      LexSolid(x);
      if x[0] == '"' {
        assert s == "\"" + (b + x);
        QuoteAgain(s, b, x);
      }
    }
  }

  lemma {:induction false} QuoteAgain(s: string, b: string, x: string)
    requires '#' !in s && s == "\"" + (b + x) && (forall c | c in b :: IsSpace(c)) && x != "" && x[0] == '"'
    ensures Lex(x) != Lex(s)
    decreases |s|, 0
  {
    hide GhpermLexer.Lex;
    var u := x[1..];
    assert x == "\"" + u && s == "\"" + b + "\"" + u;
    assert forall c | c in x :: c in s;
    LexQuotedSpaces(b, u);
    if Lex(x) == Lex(s) {
      var v := QuotedInverse(x);
      assert u == b + ("\"" + v);
      LexQuotedSpaces(b, "\"" + v);
      assert ("\"" + v)[1..] == v;
      QuoteDiffers("\"" + v);
    }
  }

  /** The first character of a text is not missed exactly when it is spare. */
  lemma {:induction false} DropFirstIff(s: string)
    requires '#' !in s && s != ""
    ensures Lex(s[1..]) == Lex(s) <==> Spare(s)
  {
    var c := s[0];
    assert s == [c] + s[1..];
    if IsSpace(c) {
      LexSpaces([c], s[1..]);
    } else {
      LexSolid(s);
      LexBySolid(s[1..]);
      if IsWordChar(c) {
        WordDiffers(s);
      } else if c == '"' {
        QuoteDiffers(s);
      } else if c == '{' || c == '}' {
        NotItsOwnRest(if c == '{' then LBrace else RBrace, Lex(s[1..]));
      }
    }
  }
}
