/** What comments do to GHPERM text (src/ghost/perms/parser.c, lines 14-33). */
module GhpermComments {
  import opened Basics
  import opened GhpermLexer
  import opened GhpermText

  // ---------- the scanner at a comment ----------

  /** `e` is the end of the line that `i` is on: a line break, a NUL, or the end of the text. */
  predicate LineEnd(data: string, i: nat, e: nat) {
    i <= e <= |data| && EndsComment(CharAt(data, e)) && forall j | i <= j < e :: !EndsComment(data[j])
  }

  /** How many comments start in `data[i..e]`. */
  function Hashes(data: string, i: nat, e: nat): nat
    requires i <= e <= |data|
    decreases e - i
  {
    if i == e then 0 else (if data[i] == '#' then 1 else 0) + Hashes(data, i + 1, e)
  }

  /** The index after `n` steps of the scanner. */
  function Steps(data: string, i: nat, n: nat): (r: nat)
    ensures i <= r && (i <= |data| ==> r <= |data|)
  {
    if n == 0 then i else NextChar(data, Steps(data, i, n - 1)).i
  }

  lemma {:induction false} StepsNone(t: string, i: nat)
    ensures Steps(t, i, 0) == i
  {
  }

  lemma {:induction false} StepFirst(t: string, i: nat, k: nat)
    requires k > 0
    ensures Steps(t, i, k) == Steps(t, NextChar(t, i).i, k - 1)
  {
    if k > 1 {
      StepFirst(t, i, k - 1);
    }
  }

  lemma {:induction false} StepsAdd(t: string, i: nat, m: nat, n: nat)
    ensures Steps(t, Steps(t, i, m), n) == Steps(t, i, m + n)
  {
    if n > 0 {
      StepsAdd(t, i, m, n - 1);
    }
  }

  lemma {:induction false} SkippedLine(data: string, i: nat, e: nat)
    requires i < e && LineEnd(data, i, e)
    ensures SkipComment(data, data[i], i) == Scan(CharAt(data, e), Steps(data, e, Hashes(data, i + 1, e)))
    decreases e - i
  {
    if i + 1 == e {
      assert NextChar(data, i) == Scan(CharAt(data, e), e);
    } else {
      SkippedLine(data, i + 1, e);
      var rest := Hashes(data, i + 2, e);
      if data[i + 1] == '#' {
        assert NextChar(data, i) == Scan(CharAt(data, e), NextChar(data, Steps(data, e, rest)).i);
        assert Steps(data, e, rest + 1) == NextChar(data, Steps(data, e, rest)).i;
      } else {
        assert NextChar(data, i) == Scan(data[i + 1], i + 1);
      }
    }
  }

  /** Stepping onto a `#` hands out the end of its line, and leaves the scanner one step behind
      that for every `#` in the line. */
  lemma {:induction false} CommentSkips(data: string, i: nat, e: nat)
    requires i + 1 < |data| && data[i + 1] == '#' && LineEnd(data, i + 1, e)
    ensures NextChar(data, i) == Scan(CharAt(data, e), Steps(data, e, Hashes(data, i + 1, e)))
  {
    SkippedLine(data, i + 1, e);
    var n := Hashes(data, i + 2, e);
    assert Steps(data, e, n + 1) == NextChar(data, Steps(data, e, n)).i;
  }

  lemma {:induction false} HashesConcat(a: string, body: string, b: string, i: nat)
    requires i <= |body|
    ensures Hashes(a + body + b, |a| + i, |a| + |body|) == Hashes(body, i, |body|)
    decreases |body| - i
  {
    if i < |body| {
      HashesConcat(a, body, b, i + 1);
      assert (a + body + b)[|a| + i] == body[i];
    }
  }

  // ---------- where the tokenizer stands ----------

  /** What the tokenizer is reading: nothing yet, a word, or a string. */
  datatype Mode = Outside | InWord(word: string) | InText(text: string)

  /** All that is read from white space on, with `c` the character handed out at `i`. */
  function Onward(data: string, c: char, i: nat): Stream {
    Tokens(data, SkipSpaceFrom(data, c, i))
  }

  /** All that is read from within a word, or a string, on. */
  function FromWord(data: string, c: char, i: nat, word: string): Stream {
    var r := ReadWordFrom(data, c, i, word);
    More(r.token, Onward(data, CharAt(data, r.i), r.i))
  }

  function FromText(data: string, c: char, i: nat, text: string): Stream {
    match ReadTextFrom(data, c, i, false, text)
    case Lexed(token, j) => More(token, Onward(data, CharAt(data, j), j))
    case Bad(e, _) => Broken(e)
    case AtEnd => End
  }

  function From(data: string, mode: Mode, c: char, i: nat): Stream {
    match mode
    case Outside => Onward(data, c, i)
    case InWord(word) => FromWord(data, c, i, word)
    case InText(text) => FromText(data, c, i, text)
  }

  /** What becomes of one character: tokens, and where the tokenizer then stands, or how it ends. */
  datatype Passed = Goes(tokens: seq<Token>, mode: Mode, next: Scan) | Stops(tokens: seq<Token>, end: Stream)

  function PassOutside(data: string, i: nat): Passed {
    var c, n := CharAt(data, i), NextChar(data, i);
    if c == NUL then Stops([], End)
    else if c == '{' then Goes([LBrace], Outside, Scan(CharAt(data, n.i), n.i))
    else if c == '}' then Goes([RBrace], Outside, Scan(CharAt(data, n.i), n.i))
    else if c == '"' then Goes([], InText(""), n)
    else if IsWordChar(c) then Goes([], InWord([c]), n)
    else Stops([], Broken(UnexpectedToken))
  }

  function Pass(data: string, mode: Mode, c: char, i: nat): Passed {
    var n := NextChar(data, i);
    match mode
    case Outside => if IsSpace(c) then Goes([], Outside, n) else PassOutside(data, i)
    case InWord(word) =>
      if IsWordChar(c) then Goes([], InWord(word + [c]), n)
      else
        var p := if IsSpace(CharAt(data, i)) then Goes([], Outside, n) else PassOutside(data, i);
        p.(tokens := [Identifier(word)] + p.tokens)
    case InText(text) =>
      if c == NUL || c == '\\' then Stops([], Broken(UnterminatedString))
      else if c == '"' then Goes([Text(text)], Outside, Scan(CharAt(data, n.i), n.i))
      else Goes([], InText(text + [c]), n)
  }

  lemma {:induction false} PassOutsideIs(data: string, i: nat)
    ensures Tokens(data, i) ==
            match PassOutside(data, i)
            case Goes(ts, mode, n) => Prepend(ts, From(data, mode, n.c, n.i))
            case Stops(ts, end) => Prepend(ts, end)
  {
    var c, n := CharAt(data, i), NextChar(data, i);
    if IsWordChar(c) {
      assert "" + [c] == [c];
      assert ReadWordFrom(data, c, i, "") == ReadWordFrom(data, n.c, n.i, [c]);
    }
  }

  /** Reading on is passing one character after the other. */
  lemma {:induction false} PassIs(data: string, mode: Mode, c: char, i: nat)
    ensures From(data, mode, c, i) ==
            match Pass(data, mode, c, i)
            case Goes(ts, mode', n) => Prepend(ts, From(data, mode', n.c, n.i))
            case Stops(ts, end) => Prepend(ts, end)
  {
    match mode
    case Outside =>
      if !IsSpace(c) {
        PassOutsideIs(data, i);
      }
    case InWord(word) =>
      if !IsWordChar(c) {
        PassOutsideIs(data, i);
        OutsideOnward(data, i);
        var p := if IsSpace(CharAt(data, i)) then Goes([], Outside, NextChar(data, i)) else PassOutside(data, i);
        hide PassOutside, From;
        match p
        case Goes(ts, mode', n) => PrependConcat([Identifier(word)], ts, From(data, mode', n.c, n.i));
        case Stops(ts, end) => PrependConcat([Identifier(word)], ts, end);
      }
    case InText(text) =>
      if c == '\\' {
        StuckEscapeNeverEnds(data, c, i, text);
      }
  }

  lemma {:induction false} OutsideOnward(data: string, i: nat)
    ensures var c, n := CharAt(data, i), NextChar(data, i);
            Onward(data, c, i) == if IsSpace(c) then Onward(data, n.c, n.i) else Tokens(data, i)
  {
  }

  /** The tokenizer stands at a character, with these tokens behind it. */
  datatype Standing = Standing(tokens: seq<Token>, mode: Mode, c: char)

  /** How it stands at index `target`, if it comes there. */
  function Reach(data: string, mode: Mode, c: char, i: nat, target: nat): Option<Standing>
    decreases target - i
  {
    if i == target then Some(Standing([], mode, c))
    else if i > target then None
    else
      match Pass(data, mode, c, i)
      case Stops(_, _) => None
      case Goes(ts, mode', n) =>
        if n.i <= i then None
        else
          var r := Reach(data, mode', n.c, n.i, target);
          if r.None? then None else Some(r.value.(tokens := ts + r.value.tokens))
  }

  /** How the tokenizer stands at the last character of a text. */
  function StandsAt(a: string): Option<Standing>
    requires a != ""
  {
    Reach(a, Outside, CharAt(a, 0), 0, |a| - 1)
  }

  lemma {:induction false} ReachLex(data: string, mode: Mode, c: char, i: nat, target: nat)
    requires Reach(data, mode, c, i, target).Some?
    ensures var st := Reach(data, mode, c, i, target).value;
            From(data, mode, c, i) == Prepend(st.tokens, From(data, st.mode, st.c, target))
    decreases target - i
  {
    if i < target {
      PassIs(data, mode, c, i);
      var p := Pass(data, mode, c, i);
      var st := Reach(data, p.mode, p.next.c, p.next.i, target).value;
      hide Pass, From;
      ReachLex(data, p.mode, p.next.c, p.next.i, target);
      PrependConcat(p.tokens, st.tokens, From(data, st.mode, st.c, target));
    }
  }

  lemma {:induction false} Snoc<T>(a: seq<T>, x: T, b: seq<T>, y: T)
    ensures a + [x] == b + [y] <==> a == b && x == y
  {
    if a + [x] == b + [y] {
      assert a == (a + [x])[..|a|] && b == (b + [y])[..|b|];
      assert x == (a + [x])[|a|] && y == (b + [y])[|b|];
    }
  }

  // ---------- what stands behind does not matter before ----------

  lemma {:induction false} NextPrefix(a: string, s: string, i: nat)
    requires i < |a|
    ensures if NextChar(a, i).i < |a| then NextChar(a + s, i) == NextChar(a, i) else NextChar(a + s, i).i >= |a|
    decreases |a| - i, 1
  {
    if i + 1 < |a| && a[i + 1] == '#' {
      SkipPrefix(a, s, '#', i + 1);
      var end := SkipComment(a, '#', i + 1);
      if end.i < |a| {
        NextPrefix(a, s, end.i);
      }
    }
  }

  lemma {:induction false} SkipPrefix(a: string, s: string, c: char, i: nat)
    requires i < |a|
    ensures if SkipComment(a, c, i).i < |a| then SkipComment(a + s, c, i) == SkipComment(a, c, i)
            else SkipComment(a + s, c, i).i >= |a|
    decreases |a| - i, if EndsComment(c) then 0 else 2
  {
    if !EndsComment(c) {
      NextPrefix(a, s, i);
      var n := NextChar(a, i);
      if n.i < |a| {
        SkipPrefix(a, s, n.c, n.i);
      } else {
        assert SkipComment(a + s, c, i) == SkipComment(a + s, NextChar(a + s, i).c, NextChar(a + s, i).i);
      }
    }
  }

  lemma {:induction false} PassPrefix(a: string, s: string, mode: Mode, c: char, i: nat)
    requires i < |a|
    ensures var p, p' := Pass(a, mode, c, i), Pass(a + s, mode, c, i);
            && (p.Stops? <==> p'.Stops?) && (p.Stops? ==> p' == p)
            && (p.Goes? && p.next.i < |a| ==> p' == p) && (p.Goes? && p.next.i >= |a| ==> p'.next.i >= |a|)
  {
    NextPrefix(a, s, i);
    assert CharAt(a + s, i) == CharAt(a, i);
    hide GhpermLexer.NextChar;
  }

  lemma {:induction false} ReachPrefix(a: string, s: string, mode: Mode, c: char, i: nat)
    requires a != ""
    ensures Reach(a + s, mode, c, i, |a| - 1) == Reach(a, mode, c, i, |a| - 1)
    decreases |a| - i
  {
    if i < |a| - 1 {
      PassPrefix(a, s, mode, c, i);
      var p := Pass(a, mode, c, i);
      hide Pass;
      if p.Goes? && i < p.next.i < |a| {
        ReachPrefix(a, s, p.mode, p.next.c, p.next.i);
      }
    }
  }

  lemma {:induction false} LexIs(data: string)
    ensures Lex(data) == From(data, Outside, CharAt(data, 0), 0)
  {
  }

  // ---------- onto a comment ----------

  predicate OneLine(body: string) {
    forall c | c in body :: !EndsComment(c)
  }

  function Comment(body: string): string {
    "#" + body + "\n"
  }

  lemma {:induction false} ShiftSteps(a: string, b: string, i: nat, n: nat)
    ensures Steps(a + b, |a| + i, n) == |a| + Steps(b, i, n)
  {
    if n > 0 {
      ShiftSteps(a, b, i, n - 1);
      ShiftNextChar(a, b, Steps(b, i, n - 1));
    }
  }

  lemma {:induction false} StepOntoComment(a: string, body: string, rest: string)
    requires a != "" && OneLine(body)
    ensures a + Comment(body) + rest == (a + "#" + body) + ("\n" + rest)
    ensures NextChar(a + Comment(body) + rest, |a| - 1) ==
            Scan('\n', |a + "#" + body| + Steps("\n" + rest, 0, 1 + Hashes(body, 0, |body|)))
  {
    var data, t := a + Comment(body) + rest, "\n" + rest;
    var e := |a| + 1 + |body|;
    assert data == (a + "#" + body) + t == (a + "#") + body + t;
    OneLineEnds(a + "#", body, rest);
    hide GhpermLexer.NextChar, LineEnd;
    assert data[|a|] == '#';
    CommentSkips(data, |a| - 1, e);
    hide Hashes, Steps;
    HashesBehind(a, body, t);
    ShiftSteps(a + "#" + body, t, 0, 1 + Hashes(body, 0, |body|));
  }

  lemma {:induction false} OneLineEnds(a: string, body: string, rest: string)
    requires OneLine(body)
    ensures LineEnd(a + body + ("\n" + rest), |a|, |a| + |body|)
    ensures a != "" && !EndsComment(a[|a| - 1]) ==> LineEnd(a + body + ("\n" + rest), |a| - 1, |a| + |body|)
  {
    var data := a + body + ("\n" + rest);
    forall j | |a| <= j < |a| + |body| ensures !EndsComment(data[j]) {
      assert data[j] == body[j - |a|] && body[j - |a|] in body;
    }
  }

  lemma {:induction false} HashesBehind(p: string, body: string, b: string)
    ensures Hashes((p + "#") + body + b, |p|, |p| + 1 + |body|) == 1 + Hashes(body, 0, |body|)
  {
    var data := (p + "#") + body + b;
    assert data[|p|] == '#';
    HashesConcat(p + "#", body, b, 0);
  }

  /** Where a line break finds the tokenizer: in white space, right behind a token, within a
      string, or at its end. */
  datatype Place = White | Behind | Inside(text: string) | Ended(end: Stream)

  datatype Left = Left(tokens: seq<Token>, place: Place)

  function LeaveOutside(last: char): Left {
    if last == NUL then Left([], Ended(End))
    else if last == '{' then Left([LBrace], Behind)
    else if last == '}' then Left([RBrace], Behind)
    else if last == '"' then Left([], Inside(""))
    else if IsWordChar(last) then Left([Identifier([last])], Behind)
    else Left([], Ended(Broken(UnexpectedToken)))
  }

  function Leave(mode: Mode, c: char, last: char): Left {
    match mode
    case Outside => if IsSpace(c) then Left([], White) else LeaveOutside(last)
    case InWord(word) =>
      if IsWordChar(c) then Left([Identifier(word + [c])], Behind)
      else
        var l := if IsSpace(last) then Left([], White) else LeaveOutside(last);
        l.(tokens := [Identifier(word)] + l.tokens)
    case InText(text) =>
      if c == NUL || c == '\\' then Left([], Ended(Broken(UnterminatedString)))
      else if c == '"' then Left([Text(text)], Behind)
      else Left([], Inside(text + [c]))
  }

  /** What the tokenizer makes of a text up to a line break behind it, and where that finds it. */
  function BeforeBreak(a: string): Left
    requires a != "" && StandsAt(a).Some?
  {
    var st := StandsAt(a).value;
    var l := Leave(st.mode, st.c, a[|a| - 1]);
    l.(tokens := st.tokens + l.tokens)
  }

  /** All that is read when the scanner is at `j`, and has just handed out a line break. */
  function Resumed(place: Place, t: string, j: nat): Stream {
    match place
    case White => Onward(t, '\n', j)
    case Behind => Onward(t, CharAt(t, j), j)
    case Inside(text) => FromText(t, '\n', j, text)
    case Ended(end) => end
  }

  lemma {:induction false} ShiftOnward(a: string, b: string, c: char, i: nat)
    ensures Onward(a + b, c, |a| + i) == Onward(b, c, i)
  {
    ShiftSkipSpaceFrom(a, b, c, i);
    ShiftTokens(a, b, SkipSpaceFrom(b, c, i));
  }

  lemma {:induction false} ShiftFromText(a: string, b: string, c: char, i: nat, text: string)
    ensures FromText(a + b, c, |a| + i, text) == FromText(b, c, i, text)
  {
    ShiftText(a, b, c, i, false, text);
    var r := ReadTextFrom(b, c, i, false, text);
    if r.Lexed? {
      assert CharAt(a + b, |a| + r.i) == CharAt(b, r.i);
      ShiftOnward(a, b, CharAt(b, r.i), r.i);
    }
  }

  /** A line break ends a word where it is. */
  lemma {:induction false} BreakEndsWord(data: string, j: nat, word: string)
    ensures FromWord(data, '\n', j, word) == More(Identifier(word), Onward(data, CharAt(data, j), j))
  {
  }

  lemma {:induction false} LeavesOutside(data: string, i: nat, j: nat)
    requires NextChar(data, i) == Scan('\n', j)
    ensures var l := LeaveOutside(CharAt(data, i)); Tokens(data, i) == Prepend(l.tokens, Resumed(l.place, data, j))
  {
    PassOutsideIs(data, i);
    BreakEndsWord(data, j, [CharAt(data, i)]);
    hide GhpermLexer.NextChar, GhpermLexer.Tokens, Onward, FromText, FromWord;
  }

  lemma {:induction false} LeavesSpaceOr(data: string, c: char, i: nat, j: nat)
    requires NextChar(data, i) == Scan('\n', j)
    ensures var l := if IsSpace(c) then Left([], White) else LeaveOutside(CharAt(data, i));
            Onward(data, c, i) == Prepend(l.tokens, Resumed(l.place, data, j))
  {
    SkipsOnward(data, c, i);
    LeavesOutside(data, i, j);
    hide Onward, LeaveOutside, GhpermLexer.NextChar, GhpermLexer.Tokens;
  }

  lemma {:induction false} LeavesWord(data: string, c: char, i: nat, j: nat, word: string)
    requires NextChar(data, i) == Scan('\n', j)
    ensures var l := Leave(InWord(word), c, CharAt(data, i));
            FromWord(data, c, i, word) == Prepend(l.tokens, Resumed(l.place, data, j))
  {
    hide Onward, FromWord, LeaveOutside, GhpermLexer.NextChar, GhpermLexer.Tokens;
    if IsWordChar(c) {
      ReadsOn(data, c, i, word);
      BreakEndsWord(data, j, word + [c]);
    } else {
      WordEnds(data, c, i, word);
      LeavesSpaceOr(data, CharAt(data, i), i, j);
      var l := if IsSpace(CharAt(data, i)) then Left([], White) else LeaveOutside(CharAt(data, i));
      PrependConcat([Identifier(word)], l.tokens, Resumed(l.place, data, j));
    }
  }

  lemma {:induction false} LeavesText(data: string, c: char, i: nat, j: nat, text: string)
    requires NextChar(data, i) == Scan('\n', j)
    ensures var l := Leave(InText(text), c, CharAt(data, i));
            FromText(data, c, i, text) == Prepend(l.tokens, Resumed(l.place, data, j))
  {
    PassIs(data, InText(text), c, i);
    hide Onward, FromText, GhpermLexer.NextChar;
  }

  lemma {:induction false} Leaves(data: string, mode: Mode, c: char, i: nat, j: nat)
    requires NextChar(data, i) == Scan('\n', j)
    ensures var l := Leave(mode, c, CharAt(data, i));
            From(data, mode, c, i) == Prepend(l.tokens, Resumed(l.place, data, j))
  {
    hide Onward, FromWord, FromText, LeaveOutside, Resumed, GhpermLexer.NextChar;
    match mode
    case Outside => LeavesSpaceOr(data, c, i, j);
    case InWord(word) => LeavesWord(data, c, i, j, word);
    case InText(text) => LeavesText(data, c, i, j, text);
  }

  lemma {:induction false} ShiftResumed(head: string, t: string, place: Place, j: nat)
    ensures Resumed(place, head + t, |head| + j) == Resumed(place, t, j)
  {
    match place
    case White => ShiftOnward(head, t, '\n', j);
    case Behind =>
      assert CharAt(head + t, |head| + j) == CharAt(t, j);
      ShiftOnward(head, t, CharAt(t, j), j);
    case Inside(text) => ShiftFromText(head, t, '\n', j, text);
    case Ended(_) =>
  }

  lemma {:induction false} ReadsOn(data: string, c: char, i: nat, word: string)
    requires IsWordChar(c)
    ensures var n := NextChar(data, i); FromWord(data, c, i, word) == FromWord(data, n.c, n.i, word + [c])
  {
  }

  lemma {:induction false} SkipsOnward(data: string, c: char, i: nat)
    ensures var n := NextChar(data, i); Onward(data, c, i) == if IsSpace(c) then Onward(data, n.c, n.i)
            else Tokens(data, i)
  {
  }

  lemma {:induction false} WordEnds(data: string, c: char, i: nat, word: string)
    requires !IsWordChar(c)
    ensures FromWord(data, c, i, word) == More(Identifier(word), Onward(data, CharAt(data, i), i))
  {
  }

  // ---------- comments that are passed over ----------

  /** Where the line that `i` is on ends. */
  function EndOfLine(t: string, i: nat): (e: nat)
    requires i <= |t|
    ensures LineEnd(t, i, e)
    decreases |t| - i
  {
    if EndsComment(CharAt(t, i)) then i else EndOfLine(t, i + 1)
  }

  /** How many of `k` steps from `i` on are still to be taken at the last character, if they are not
      all taken before, and no comment in between stays open. */
  function StepsLeft(t: string, i: nat, k: nat): Option<nat>
    requires i < |t|
    decreases |t| - i
  {
    if i == |t| - 1 then Some(k)
    else if k == 0 then None
    else if t[i + 1] != '#' then StepsLeft(t, i + 1, k - 1)
    else
      var e := EndOfLine(t, i + 1);
      if CharAt(t, e) == NUL then None else StepsLeft(t, e, k - 1 + Hashes(t, i + 1, e))
  }

  lemma {:induction false} HashesPrefix(t: string, s: string, i: nat, e: nat)
    requires i <= e <= |t|
    ensures Hashes(t + s, i, e) == Hashes(t, i, e)
    decreases e - i
  {
    if i < e {
      HashesPrefix(t, s, i + 1, e);
      assert (t + s)[i] == t[i];
    }
  }

  /** A comment that ends in `t` leaves the same steps to take, whatever follows. */
  lemma {:induction false} CommentWithin(t: string, s: string, i: nat)
    requires i + 1 < |t| && t[i + 1] == '#' && CharAt(t, EndOfLine(t, i + 1)) != NUL
    ensures var e := EndOfLine(t, i + 1);
            e < |t| && NextChar(t + s, i) == Scan('\n', Steps(t + s, e, Hashes(t, i + 1, e)))
  {
    var e := EndOfLine(t, i + 1);
    assert CharAt(t + s, e) == t[e] == '\n';
    assert LineEnd(t + s, i + 1, e) by {
      assert forall j | i + 1 <= j < e :: (t + s)[j] == t[j];
    }
    CommentSkips(t + s, i, e);
    HashesPrefix(t, s, i + 1, e);
  }

  lemma {:induction false} StepsLeftIs(t: string, s: string, i: nat, k: nat)
    requires i < |t| && StepsLeft(t, i, k).Some?
    ensures Steps(t + s, i, k) == Steps(t + s, |t| - 1, StepsLeft(t, i, k).value)
    decreases |t| - i
  {
    hide Steps, Hashes, EndOfLine, GhpermLexer.NextChar;
    if i < |t| - 1 {
      StepFirst(t + s, i, k);
      if t[i + 1] != '#' {
        StepWithin(t, s, i);
        StepsLeftIs(t, s, i + 1, k - 1);
      } else {
        var e := EndOfLine(t, i + 1);
        CommentWithin(t, s, i);
        StepsAdd(t + s, e, Hashes(t, i + 1, e), k - 1);
        StepsLeftIs(t, s, e, k - 1 + Hashes(t, i + 1, e));
      }
    }
  }

  lemma {:induction false} StepWithin(t: string, s: string, i: nat)
    requires i + 1 < |t| && t[i + 1] != '#'
    ensures NextChar(t + s, i).i == i + 1
  {
    assert CharAt(t + s, i + 1) == t[i + 1];
  }

  /** The tokenizer stands at `i`, and its step from there comes to the last character with one more
      step than `owed` to take. */
  datatype Site = Site(tokens: seq<Token>, mode: Mode, c: char, i: nat, owed: nat)

  function Seek(a: string, mode: Mode, c: char, i: nat): (r: Option<Site>)
    requires i < |a|
    ensures r.Some? ==> r.value.i < |a|
    decreases |a| - i
  {
    if i == |a| - 1 then Some(Site([], mode, c, i, 0))
    else
      match Pass(a, mode, c, i)
      case Stops(_, _) => None
      case Goes(ts, mode', n) =>
        if n.i < |a| then
          var r := Seek(a, mode', n.c, n.i);
          if r.None? then None else Some(r.value.(tokens := ts + r.value.tokens))
        else if a[i + 1] != '#' || CharAt(a, EndOfLine(a, i + 1)) == NUL then None
        else
          var e := EndOfLine(a, i + 1);
          match StepsLeft(a, e, Hashes(a, i + 1, e))
          case Some(k) => if k == 0 then None else Some(Site([], mode, c, i, k - 1))
          case None => None
  }

  /** A comment or a line break is met behind these tokens, where the tokenizer is at this place. It
      is met in a step of the tokenizer, or in one of those that an earlier comment makes the scanner
      take; `owed` more are to be taken then. */
  datatype Met = Met(tokens: seq<Token>, place: Place, owed: nat)

  /** How a comment behind `a` is met, if it is. */
  function Meets(a: string): Option<Met>
    requires a != ""
  {
    match Seek(a, Outside, CharAt(a, 0), 0)
    case Some(site) =>
      var l := Leave(site.mode, site.c, a[site.i]);
      Some(Met(site.tokens + l.tokens, l.place, site.owed))
    case None => None
  }

  lemma {:induction false} PassMoves(a: string, mode: Mode, c: char, i: nat)
    ensures var p := Pass(a, mode, c, i); p.Goes? ==> p.next.i == NextChar(a, i).i
  {
    hide GhpermLexer.NextChar;
  }

  lemma {:induction false} SeekLex(a: string, s: string, mode: Mode, c: char, i: nat)
    requires i < |a| && Seek(a, mode, c, i).Some?
    ensures var site := Seek(a, mode, c, i).value;
            From(a + s, mode, c, i) == Prepend(site.tokens, From(a + s, site.mode, site.c, site.i))
    decreases |a| - i
  {
    hide From, StepsLeft, EndOfLine, Hashes, Pass, GhpermLexer.NextChar;
    PassMoves(a, mode, c, i);
    var p := Pass(a, mode, c, i);
    if i < |a| - 1 && p.next.i < |a| {
      PassIs(a + s, mode, c, i);
      PassPrefix(a, s, mode, c, i);
      var site := Seek(a, p.mode, p.next.c, p.next.i).value;
      SeekLex(a, s, p.mode, p.next.c, p.next.i);
      PrependConcat(p.tokens, site.tokens, From(a + s, site.mode, site.c, site.i));
    }
  }

  lemma {:induction false} SeekSteps(a: string, s: string, mode: Mode, c: char, i: nat)
    requires i < |a| && Seek(a, mode, c, i).Some?
    ensures var site := Seek(a, mode, c, i).value;
            var n := NextChar(a + s, site.i);
            n.i == Steps(a + s, |a| - 1, site.owed + 1) && (site.i == |a| - 1 || n.c == '\n')
    decreases |a| - i
  {
    hide EndOfLine, Hashes, Pass, GhpermLexer.NextChar;
    if i == |a| - 1 {
      assert Steps(a + s, i, 0) == i;
    } else {
      PassMoves(a, mode, c, i);
      var p := Pass(a, mode, c, i);
      if p.next.i < |a| {
        SeekSteps(a, s, p.mode, p.next.c, p.next.i);
      } else {
        var e := EndOfLine(a, i + 1);
        CommentWithin(a, s, i);
        StepsLeftIs(a, s, e, Hashes(a, i + 1, e));
      }
    }
  }

  /** Where the tokenizer comes to the last character, it meets the comment itself. */
  lemma {:induction false} SeekReach(a: string, mode: Mode, c: char, i: nat)
    requires i < |a| && Reach(a, mode, c, i, |a| - 1).Some?
    ensures var st := Reach(a, mode, c, i, |a| - 1).value;
            Seek(a, mode, c, i) == Some(Site(st.tokens, st.mode, st.c, |a| - 1, 0))
    decreases |a| - i
  {
    hide Pass;
    if i < |a| - 1 {
      var p := Pass(a, mode, c, i);
      SeekReach(a, p.mode, p.next.c, p.next.i);
    }
  }

  lemma {:induction false} StandsMeets(a: string)
    requires a != "" && StandsAt(a).Some?
    ensures var l := BeforeBreak(a); Meets(a) == Some(Met(l.tokens, l.place, 0))
  {
    SeekReach(a, Outside, CharAt(a, 0), 0);
  }

  // ---------- what is not met ----------

  lemma {:induction false} EndOfLinePrefix(t: string, m: nat, i: nat)
    requires i <= m <= |t| && EndOfLine(t, i) < m
    ensures EndOfLine(t[..m], i) == EndOfLine(t, i)
    decreases m - i
  {
    assert CharAt(t[..m], i) == CharAt(t, i);
    if !EndsComment(CharAt(t, i)) {
      EndOfLinePrefix(t, m, i + 1);
    }
  }

  /** At `m` there is a `#` whose line does not end. */
  predicate OpensAt(t: string, m: nat) {
    m < |t| && t[m] == '#' && OneLine(t[m + 1..])
  }

  lemma {:induction false} OpenToTheEnd(t: string, m: nat)
    requires NUL !in t && m < |t| && t[m] == '#' && CharAt(t, EndOfLine(t, m)) == NUL
    ensures OpensAt(t, m)
  {
    forall x | x in t[m + 1..] ensures !EndsComment(x) {
      var j :| 0 <= j < |t[m + 1..]| && t[m + 1..][j] == x;
      assert t[m + 1 + j] == x;
    }
  }

  /** What is true of the beginning of a text up to `m` is true behind a comment before `m` too. */
  lemma {:induction false} CommentBefore(t: string, m: nat, i: nat)
    requires i + 1 < m <= |t| && t[i + 1] == '#' && EndOfLine(t, i + 1) < m
    ensures var e := EndOfLine(t, i + 1);
            && EndOfLine(t[..m], i + 1) == e && CharAt(t[..m], e) == CharAt(t, e)
            && Hashes(t[..m], i + 1, e) == Hashes(t, i + 1, e)
  {
    EndOfLinePrefix(t, m, i + 1);
    HashesPrefix(t[..m], t[m..], i + 1, EndOfLine(t, i + 1));
    assert t[..m] + t[m..] == t;
  }

  /** Where no steps are left to take, they ended before, or in a comment that stays open. */
  lemma {:induction false} NoStepsLeft(t: string, i: nat, k: nat) returns (m: nat)
    requires i < |t| && NUL !in t && StepsLeft(t, i, k).None?
    ensures if m == 0 then Steps(t, i, k) < |t|
            else i < m < |t| && OpensAt(t, m) && StepsLeft(t[..m], i, k).Some? && StepsLeft(t[..m], i, k).value > 0
    decreases |t| - i
  {
    hide Steps, Hashes, EndOfLine, GhpermLexer.NextChar, OpensAt;
    assert t + "" == t;
    if k == 0 {
      m := 0;
      StepsNone(t, i);
    } else if t[i + 1] != '#' {
      StepFirst(t, i, k);
      StepWithin(t, "", i);
      m := NoStepsLeft(t, i + 1, k - 1);
    } else {
      var e := EndOfLine(t, i + 1);
      if CharAt(t, e) == NUL {
        m := i + 1;
        OpenToTheEnd(t, m);
      } else {
        CommentWithin(t, "", i);
        StepFirst(t, i, k);
        StepsAdd(t, e, Hashes(t, i + 1, e), k - 1);
        m := NoStepsLeft(t, e, k - 1 + Hashes(t, i + 1, e));
        if m != 0 {
          CommentBefore(t, m, i);
        }
      }
    }
  }

  /** What stands behind `a` is read by nobody, or is part of a comment that is met. */
  lemma {:induction false} UnmetFrom(a: string, mode: Mode, c: char, i: nat) returns (m: nat)
    requires i < |a| && NUL !in a && Seek(a, mode, c, i).None?
    ensures if m == 0 then forall s: string :: From(a + s, mode, c, i) == From(a, mode, c, i)
            else i < m && OpensAt(a, m) && Seek(a[..m], mode, c, i).Some?
    decreases |a| - i
  {
    hide From, StepsLeft, EndOfLine, Hashes, Pass, GhpermLexer.NextChar, Steps, OneLine;
    var p := Pass(a, mode, c, i);
    PassMoves(a, mode, c, i);
    PassIs(a, mode, c, i);
    if p.Stops? {
      m := 0;
      forall s: string ensures From(a + s, mode, c, i) == From(a, mode, c, i) {
        PassPrefix(a, s, mode, c, i);
        PassIs(a + s, mode, c, i);
      }
    } else if p.next.i < |a| {
      m := UnmetFrom(a, p.mode, p.next.c, p.next.i);
      if m == 0 {
        forall s: string ensures From(a + s, mode, c, i) == From(a, mode, c, i) {
          PassPrefix(a, s, mode, c, i);
          PassIs(a + s, mode, c, i);
        }
      } else {
        PassPrefix(a[..m], a[m..], mode, c, i);
        assert a[..m] + a[m..] == a;
      }
    } else {
      m := UnmetStep(a, i);
      PassPrefix(a[..m], a[m..], mode, c, i);
      assert a[..m] + a[m..] == a;
    }
  }

  lemma {:induction false} UnmetStep(a: string, i: nat) returns (m: nat)
    requires i < |a| - 1 && NUL !in a && NextChar(a, i).i >= |a|
    requires a[i + 1] != '#' || CharAt(a, EndOfLine(a, i + 1)) == NUL ||
             (var e := EndOfLine(a, i + 1); var k := StepsLeft(a, e, Hashes(a, i + 1, e)); k.None? || k.value == 0)
    ensures i < m && OpensAt(a, m) && a[i + 1] == '#'
    ensures m != i + 1 ==>
              var e := EndOfLine(a, i + 1);
              && i + 1 <= e < m && a[e] == '\n' && EndOfLine(a[..m], i + 1) == e
              && Hashes(a[..m], i + 1, e) == Hashes(a, i + 1, e)
              && var k := StepsLeft(a[..m], e, Hashes(a, i + 1, e)); k.Some? && k.value > 0
  {
    assert a + "" == a;
    if a[i + 1] != '#' {
      StepWithin(a, "", i);
    }
    hide Steps, Hashes, EndOfLine, GhpermLexer.NextChar;
    StepsNone(a, |a| - 1);
    var e := EndOfLine(a, i + 1);
    if CharAt(a, e) == NUL {
      m := i + 1;
      OpenToTheEnd(a, m);
    } else {
      CommentWithin(a, "", i);
      if StepsLeft(a, e, Hashes(a, i + 1, e)).Some? {
        StepsLeftIs(a, "", e, Hashes(a, i + 1, e));
      }
      m := NoStepsLeft(a, e, Hashes(a, i + 1, e));
      CommentBefore(a, m, i);
    }
  }

  /** No comment is left out: where none is met, the tokenizer has ended before, so that what follows
      is read by nobody; or a comment that is met is still open. */
  lemma {:induction false} UnmetMeans(a: string) returns (m: nat)
    requires a != "" && NUL !in a && Meets(a).None?
    ensures if m == 0 then forall s: string :: Lex(a + s) == Lex(a)
            else OpensAt(a, m) && Meets(a[..m]).Some?
  {
    hide From, Seek, GhpermLexer.Lex;
    m := UnmetFrom(a, Outside, CharAt(a, 0), 0);
    if m == 0 {
      LexIs(a);
      forall s: string ensures Lex(a + s) == Lex(a) {
        LexIs(a + s);
        assert CharAt(a + s, 0) == CharAt(a, 0);
      }
    } else {
      assert CharAt(a[..m], 0) == CharAt(a, 0);
    }
  }

  /** What a comment does, wherever it is met and whatever is in it and behind it: the tokenizer goes
      on as behind a line break, but from where the comment has left the scanner. */
  lemma {:induction false} CommentTakes(a: string, body: string, rest: string)
    requires a != "" && Meets(a).Some? && OneLine(body)
    ensures var m, t := Meets(a).value, "\n" + rest;
            var j, j' := Steps(t, 0, m.owed), Steps(t, 0, m.owed + 1 + Hashes(body, 0, |body|));
            && Lex(a + Comment(body) + rest) == Prepend(m.tokens, Resumed(m.place, t, j'))
            && Lex(a + "\n" + rest) == Prepend(m.tokens, Resumed(m.place, t, j))
  {
    hide Seek, Steps, Hashes, Leave, Resumed, Comment, GhpermLexer.NextChar, GhpermLexer.Lex, From;
    var site, t, h := Seek(a, Outside, CharAt(a, 0), 0).value, "\n" + rest, Hashes(body, 0, |body|);
    StepOntoComment(a, body, rest);
    assert a + Comment(body) + rest == a + ("#" + body + t) && a + "\n" + rest == a + t;
    StepsBehind(a + "#" + body, t, a + ("#" + body + t), |a| - 1, 1 + h, site.owed);
    MetAt(a, "#" + body + t, a + "#" + body, t, Steps(t, 0, site.owed + 1 + h));
    StepOntoBreak(a, rest);
    StepsNone(t, 0);
    StepsBehind(a, t, a + t, |a| - 1, 0, site.owed);
    MetAt(a, t, a, t, Steps(t, 0, site.owed));
  }

  lemma {:induction false} StepsBehind(p: string, t: string, data: string, i: nat, k: nat, owed: nat)
    requires data == p + t && NextChar(data, i).i == |p| + Steps(t, 0, k)
    ensures Steps(data, i, owed + 1) == |p| + Steps(t, 0, owed + k)
  {
    StepFirst(data, i, owed + 1);
    ShiftSteps(p, t, Steps(t, 0, k), owed);
    StepsAdd(t, 0, k, owed);
  }

  /** `s` starts with a comment, or a line break; `t` is its end, from the line break on. */
  lemma {:induction false} MetAt(a: string, s: string, p: string, t: string, j: nat)
    requires a != "" && Meets(a).Some? && a + s == p + t && NextChar(a + s, |a| - 1).c == '\n'
    requires Steps(a + s, |a| - 1, Meets(a).value.owed + 1) == |p| + j
    ensures var m := Meets(a).value; Lex(a + s) == Prepend(m.tokens, Resumed(m.place, t, j))
  {
    hide Seek, Steps, Leave, Resumed, GhpermLexer.NextChar, GhpermLexer.Lex, From;
    var data, site := a + s, Seek(a, Outside, CharAt(a, 0), 0).value;
    assert CharAt(data, 0) == CharAt(a, 0) && CharAt(data, site.i) == a[site.i];
    LexIs(data);
    SeekLex(a, s, Outside, CharAt(a, 0), 0);
    SeekSteps(a, s, Outside, CharAt(a, 0), 0);
    var l := Leave(site.mode, site.c, a[site.i]);
    Leaves(data, site.mode, site.c, site.i, |p| + j);
    ShiftResumed(p, t, l.place, j);
    PrependConcat(site.tokens, l.tokens, Resumed(l.place, t, j));
  }

  lemma {:induction false} StepOntoBreak(a: string, rest: string)
    requires a != ""
    ensures NextChar(a + ("\n" + rest), |a| - 1) == Scan('\n', |a|)
  {
  }
}
