/** The tokenizer of the preprocessor (examples/prep/tokenizer.c). */
module PrepTokenizer {
  import opened Basics

  datatype Kind = Whitespace | Text | Marker | LParen | RParen | Eof

  /** A token is a piece of the buffer. */
  datatype Token = Token(kind: Kind, start: nat, len: nat)

  predicate IsBlank(c: char) {
    c == '\n' || c == '\t' || c == ' '
  }

  predicate IsSpecial(c: char) {
    c == '#' || c == '(' || c == ')'
  }

  predicate IsText(c: char) {
    c != NUL && !IsBlank(c) && !IsSpecial(c)
  }

  /** End of the run of blanks, or of text, that starts at `i`. */
  function RunEnd(buf: string, i: nat, blank: bool): (r: nat)
    ensures i <= r && (i <= |buf| ==> r <= |buf|)
    ensures forall k | i <= k < r :: k < |buf| && if blank then IsBlank(buf[k]) else IsText(buf[k])
    ensures if blank then !IsBlank(CharAt(buf, r)) else !IsText(CharAt(buf, r))
    decreases |buf| - i
  {
    var c := CharAt(buf, i);
    if (if blank then IsBlank(c) else IsText(c)) then RunEnd(buf, i + 1, blank) else i
  }

  /** `prep_tokenizer_nexttoken` */
  function TokenAt(buf: string, i: nat): (t: Token)
    ensures t.start == i && (t.kind.Eof? <==> CharAt(buf, i) == NUL)
            && (!t.kind.Eof? ==> 0 < t.len && i + t.len <= |buf|)
  {
    var c := CharAt(buf, i);
    if c == NUL then Token(Eof, i, 0)
    else if c == '#' then Token(Marker, i, 1)
    else if c == '(' then Token(LParen, i, 1)
    else if c == ')' then Token(RParen, i, 1)
    else if IsBlank(c) then
      assert RunEnd(buf, i, true) > i;
      Token(Whitespace, i, RunEnd(buf, i, true) - i)
    else
      assert RunEnd(buf, i, false) > i;
      Token(Text, i, RunEnd(buf, i, false) - i)
  }

  /** All tokens from `i` on. */
  function Tokens(buf: string, i: nat): (ts: seq<Token>)
    ensures ts != [] && ts[0] == TokenAt(buf, i)
    decreases |buf| - i
  {
    var t := TokenAt(buf, i);
    if t.kind.Eof? then [t] else [t] + Tokens(buf, i + t.len)
  }

  function TextOf(buf: string, t: Token): string
    requires t.start + t.len <= |buf|
  {
    buf[t.start..t.start + t.len]
  }

  /** The input as the tokenizer sees it ends at the first NUL. */
  function End(buf: string, i: nat): (r: nat)
    requires i <= |buf|
    ensures i <= r <= |buf| && CharAt(buf, r) == NUL && NUL !in buf[i..r]
    decreases |buf| - i
  {
    if CharAt(buf, i) == NUL then i
    else
      var r := End(buf, i + 1);
      assert buf[i..r] == [buf[i]] + buf[i + 1..r];
      r
  }

  // ---------- what a tokenization is ----------

  /** The characters of a token are of its kind. */
  ghost predicate Pure(buf: string, t: Token) {
    match t.kind
    case Eof => t.len == 0 && CharAt(buf, t.start) == NUL
    case Marker => t.len == 1 && CharAt(buf, t.start) == '#'
    case LParen => t.len == 1 && CharAt(buf, t.start) == '('
    case RParen => t.len == 1 && CharAt(buf, t.start) == ')'
    case Whitespace => 0 < t.len && forall k | t.start <= k < t.start + t.len :: IsBlank(CharAt(buf, k))
    case Text => 0 < t.len && forall k | t.start <= k < t.start + t.len :: IsText(CharAt(buf, k))
  }

  ghost predicate MeetsNext(ts: seq<Token>, k: nat)
    requires k + 1 < |ts|
  {
    ts[k + 1].start == ts[k].start + ts[k].len
  }

  /** Each token starts where the one before ends. */
  ghost predicate Contiguous(ts: seq<Token>) {
    forall k: nat | k < |ts| - 1 :: MeetsNext(ts, k)
  }

  /** There is one end token, at the end. */
  ghost predicate EndsOnce(ts: seq<Token>) {
    ts != [] && forall k | 0 <= k < |ts| :: ts[k].kind.Eof? <==> k == |ts| - 1
  }

  ghost predicate EndsBeforeNext(ts: seq<Token>, k: nat)
    requires k + 1 < |ts|
  {
    (ts[k].kind.Whitespace? || ts[k].kind.Text?) ==> ts[k + 1].kind != ts[k].kind
  }

  /** No two neighbours could be one token. */
  ghost predicate Maximal(ts: seq<Token>) {
    forall k: nat | k < |ts| - 1 :: EndsBeforeNext(ts, k)
  }

  ghost predicate Tokenizes(buf: string, i: nat, ts: seq<Token>) {
    && EndsOnce(ts) && ts[0].start == i && Contiguous(ts) && Maximal(ts)
    && forall k | 0 <= k < |ts| :: Pure(buf, ts[k])
  }

  lemma {:induction false} TokenAtIsPure(buf: string, i: nat)
    ensures Pure(buf, TokenAt(buf, i))
  {
  }

  /** A token extends as far as it can. */
  lemma {:induction false} NextKindDiffers(buf: string, i: nat)
    ensures var t := TokenAt(buf, i);
            (t.kind.Whitespace? || t.kind.Text?) ==> TokenAt(buf, i + t.len).kind != t.kind
  {
  }

  lemma {:induction false} TokensTokenize(buf: string, i: nat)
    ensures Tokenizes(buf, i, Tokens(buf, i))
    decreases |buf| - i
  {
    hide Pure, TokenAt;
    var t := TokenAt(buf, i);
    TokenAtIsPure(buf, i);
    if !t.kind.Eof? {
      var ts, rest := Tokens(buf, i), Tokens(buf, i + t.len);
      TokensTokenize(buf, i + t.len);
      NextKindDiffers(buf, i);
      forall k: nat | k < |ts| - 1 ensures MeetsNext(ts, k) && EndsBeforeNext(ts, k) {
        assert k > 0 ==> MeetsNext(rest, k - 1) && EndsBeforeNext(rest, k - 1);
      }
    }
  }

  lemma {:induction false} TailContiguous(ts: seq<Token>)
    requires |ts| > 1
    ensures Contiguous(ts) ==> Contiguous(ts[1..]) && ts[1].start == ts[0].start + ts[0].len
    ensures Maximal(ts) ==> Maximal(ts[1..])
  {
    var rest := ts[1..];
    if Contiguous(ts) {
      assert MeetsNext(ts, 0);
      forall k: nat | k < |rest| - 1 ensures MeetsNext(rest, k) {
        assert MeetsNext(ts, k + 1);
      }
    }
    if Maximal(ts) {
      forall k: nat | k < |rest| - 1 ensures EndsBeforeNext(rest, k) {
        assert EndsBeforeNext(ts, k + 1);
      }
    }
  }

  /** A pure token that the next one does not continue is the one found at its place. */
  lemma {:induction false} PureIsTokenAt(buf: string, t: Token, next: Token)
    requires Pure(buf, t) && Pure(buf, next) && next.start == t.start + t.len && !t.kind.Eof?
    requires (t.kind.Whitespace? || t.kind.Text?) ==> next.kind != t.kind
    ensures t == TokenAt(buf, t.start)
  {
    if t.kind.Whitespace? || t.kind.Text? {
      var blank := t.kind.Whitespace?;
      var end := RunEnd(buf, t.start, blank);
      var c := CharAt(buf, next.start);
      assert next.kind.Whitespace? || next.kind.Text? ==> (if next.kind.Whitespace? then IsBlank(c) else IsText(c));
      assert CharAt(buf, t.start) != NUL;
      assert end == next.start;
    }
  }

  lemma {:induction false} EndIsTokenAt(buf: string, t: Token)
    requires Pure(buf, t) && t.kind.Eof?
    ensures t == TokenAt(buf, t.start)
  {
  }

  /** There is one way only to cut a buffer into maximal pure tokens, and it is the one
      the tokenizer finds. */
  lemma {:induction false} TokensAreUnique(buf: string, i: nat, ts: seq<Token>)
    requires Tokenizes(buf, i, ts)
    ensures ts == Tokens(buf, i)
    decreases |ts|
  {
    hide Pure, TokenAt, Tokens, Tokenizes;
    TokensUnfold(buf, i);
    FirstIsTokenAt(buf, i, ts);
    if |ts| > 1 {
      TailTokenizes(buf, i, ts);
      TokensAreUnique(buf, ts[1].start, ts[1..]);
    }
    assert ts == [ts[0]] + ts[1..];
  }

  lemma {:induction false} FirstIsTokenAt(buf: string, i: nat, ts: seq<Token>)
    requires Tokenizes(buf, i, ts)
    ensures ts != [] && ts[0] == TokenAt(buf, i) && (ts[0].kind.Eof? <==> |ts| == 1)
    ensures |ts| > 1 ==> ts[1].start == i + ts[0].len
  {
    hide TokenAt;
    assert Pure(buf, ts[0]);
    if |ts| == 1 {
      EndIsTokenAt(buf, ts[0]);
    } else {
      assert Pure(buf, ts[1]);
      assert MeetsNext(ts, 0) && EndsBeforeNext(ts, 0);
      hide Pure;
      PureIsTokenAt(buf, ts[0], ts[1]);
    }
  }

  lemma {:induction false} TailTokenizes(buf: string, i: nat, ts: seq<Token>)
    requires Tokenizes(buf, i, ts) && |ts| > 1
    ensures Tokenizes(buf, ts[1].start, ts[1..])
  {
    hide Pure;
    assert forall k | 0 <= k < |ts| - 1 :: ts[1..][k] == ts[k + 1];
    TailContiguous(ts);
  }

  ghost predicate Within(buf: string, ts: seq<Token>) {
    forall k | 0 <= k < |ts| :: ts[k].start + ts[k].len <= |buf|
  }

  function Joined(buf: string, ts: seq<Token>): string
    requires Within(buf, ts)
  {
    if ts == [] then "" else TextOf(buf, ts[0]) + Joined(buf, ts[1..])
  }

  lemma {:induction false} SliceSplit(buf: string, a: nat, b: nat, c: nat)
    requires a <= b <= c <= |buf|
    ensures buf[a..b] + buf[b..c] == buf[a..c]
  {
  }

  /** The texts of neighbouring tokens join up to the piece of the buffer they span. */
  lemma {:induction false} JoinedIsSlice(buf: string, ts: seq<Token>)
    requires ts != [] && Contiguous(ts) && Within(buf, ts)
    ensures var last := ts[|ts| - 1];
            ts[0].start <= last.start && Joined(buf, ts) == buf[ts[0].start..last.start + last.len]
  {
    hide Contiguous;
    if |ts| == 1 {
      assert Joined(buf, ts[1..]) == "";
    } else {
      var rest := ts[1..];
      TailContiguous(ts);
      JoinedIsSlice(buf, rest);
      var a, b, last := ts[0].start, rest[0].start, ts[|ts| - 1];
      assert b == a + ts[0].len && rest[|rest| - 1] == last;
      var end := last.start + last.len;
      SliceSplit(buf, a, b, end);
      assert Joined(buf, ts) == buf[a..b] + Joined(buf, rest);
      assert Joined(buf, rest) == buf[b..end];
    }
  }

  lemma {:induction false} FirstIsWithin(buf: string, t: Token, rest: seq<Token>)
    requires Within(buf, rest) && t.start + t.len <= |buf|
    ensures Within(buf, [t] + rest)
  {
  }

  lemma {:induction false} TokensAreWithin(buf: string, i: nat)
    requires i <= |buf|
    ensures Within(buf, Tokens(buf, i))
    ensures var ts := Tokens(buf, i); ts[|ts| - 1] == Token(Eof, End(buf, i), 0)
    decreases |buf| - i
  {
    hide TokenAt, End, Tokens, Within;
    var t := TokenAt(buf, i);
    TokensUnfold(buf, i);
    if t.kind.Eof? {
      EndIsWithin(buf, i);
    } else {
      NoNulInside(buf, i);
      TokensAreWithin(buf, i + t.len);
      SkipToEnd(buf, i, i + t.len);
      FirstIsWithin(buf, t, Tokens(buf, i + t.len));
    }
  }

  lemma {:induction false} TokensUnfold(buf: string, i: nat)
    ensures var t := TokenAt(buf, i); Tokens(buf, i) == if t.kind.Eof? then [t] else [t] + Tokens(buf, i + t.len)
  {
    hide TokenAt;
  }

  lemma {:induction false} EndIsWithin(buf: string, i: nat)
    requires i <= |buf| && TokenAt(buf, i).kind.Eof?
    ensures TokenAt(buf, i) == Token(Eof, End(buf, i), 0) && Within(buf, [TokenAt(buf, i)])
  {
  }

  lemma {:induction false} NoNulInside(buf: string, i: nat)
    requires !TokenAt(buf, i).kind.Eof?
    ensures forall k | i <= k < i + TokenAt(buf, i).len :: buf[k] != NUL
  {
  }

  lemma {:induction false} SkipToEnd(buf: string, i: nat, j: nat)
    requires i <= j <= |buf| && forall k | i <= k < j :: buf[k] != NUL
    ensures End(buf, i) == End(buf, j)
    decreases j - i
  {
  }

  /** Nothing is lost: the tokens join up to the input before the first NUL. */
  lemma {:induction false} TokensJoinToInput(buf: string)
    ensures Within(buf, Tokens(buf, 0)) && Joined(buf, Tokens(buf, 0)) == buf[..End(buf, 0)]
  {
    TokensAreWithin(buf, 0);
    TokensTokenize(buf, 0);
    JoinedIsSlice(buf, Tokens(buf, 0));
  }

  // ---------- the tokenizer ----------

  class Tokenizer {
    const buf: string
    var idx: nat

    constructor (buf: string)
      ensures this.buf == buf && idx == 0
    {
      this.buf, idx := buf, 0;
    }

    method NextChar()
      modifies this
      ensures idx == if old(idx) >= |buf| then old(idx) else old(idx) + 1
    {
      if idx >= |buf| {
        return;
      }
      idx := idx + 1;
    }

    method EatWhitespace() returns (t: Token)
      modifies this
      ensures t == Token(Whitespace, old(idx), RunEnd(buf, old(idx), true) - old(idx))
              && idx == RunEnd(buf, old(idx), true)
    {
      var start, len := idx, 0;
      while true
        invariant idx == start + len && RunEnd(buf, idx, true) == RunEnd(buf, start, true)
        decreases |buf| - idx
      {
        var c := CharAt(buf, idx);
        if c == NUL {
          break;
        }
        if !IsBlank(c) {
          break;
        }
        len := len + 1;
        NextChar();
      }
      return Token(Whitespace, start, len);
    }

    method EatText() returns (t: Token)
      modifies this
      ensures t == Token(Text, old(idx), RunEnd(buf, old(idx), false) - old(idx)) && idx == RunEnd(buf, old(idx), false)
    {
      var start, len := idx, 0;
      while true
        invariant idx == start + len && RunEnd(buf, idx, false) == RunEnd(buf, start, false)
        decreases |buf| - idx
      {
        var c := CharAt(buf, idx);
        if c == NUL {
          break;
        }
        if IsBlank(c) {
          break;
        }
        if IsSpecial(c) {
          break;
        }
        len := len + 1;
        NextChar();
      }
      return Token(Text, start, len);
    }

    method NextToken() returns (t: Token)
      modifies this
      ensures t == TokenAt(buf, old(idx))
      ensures !t.kind.Eof? ==> idx == old(idx) + t.len
    {
      var c := CharAt(buf, idx);
      if c == NUL {
        t := Token(Eof, idx, 0);
        NextChar();
      } else if c == '#' {
        t := Token(Marker, idx, 1);
        NextChar();
      } else if c == '(' {
        t := Token(LParen, idx, 1);
        NextChar();
      } else if c == ')' {
        t := Token(RParen, idx, 1);
        NextChar();
      } else if IsBlank(c) {
        t := EatWhitespace();
      } else {
        t := EatText();
      }
    }
  }

  /** The token loop of `preprocess` */
  method Tokenize(buf: string) returns (ts: seq<Token>)
    ensures ts == Tokens(buf, 0)
  {
    hide TokenAt, Tokens;
    var tokenizer := new Tokenizer(buf);
    ts := [];
    while true
      invariant tokenizer.buf == buf && ts + Tokens(buf, tokenizer.idx) == Tokens(buf, 0)
      decreases |buf| - tokenizer.idx
    {
      TokensUnfold(buf, tokenizer.idx);
      var token := tokenizer.NextToken();
      ts := ts + [token];
      if token.kind.Eof? {
        break;
      }
    }
  }
}
