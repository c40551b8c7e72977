/** Two readings of one GHPERM text that are at the same character: which of them can end in the
    same tokens (src/ghost/perms/parser.c, lines 14-266). */
module GhpermReadings {
  import opened Basics
  import opened GhpermLexer
  import opened GhpermComments

  // ---------- two readings of one text ----------

  ghost predicate ReadsThrough(s: Stream)
    decreases s
  {
    s == End || (s.More? && ReadsThrough(s.rest))
  }

  lemma {:induction false} ReadsThroughPrepend(tokens: seq<Token>, s: Stream)
    ensures ReadsThrough(Prepend(tokens, s)) <==> ReadsThrough(s)
  {
    if tokens != [] {
      ReadsThroughPrepend(tokens[1..], s);
    }
  }

  function Size(s: Stream): nat {
    if s.More? then 1 + Size(s.rest) else 0
  }

  lemma {:induction false} SizePrepend(tokens: seq<Token>, s: Stream)
    ensures Size(Prepend(tokens, s)) == |tokens| + Size(s)
  {
    if tokens != [] {
      SizePrepend(tokens[1..], s);
    }
  }

  lemma {:induction false} PrependInjective(tokens: seq<Token>, s: Stream, s': Stream)
    ensures Prepend(tokens, s) == Prepend(tokens, s') <==> s == s'
  {
    if tokens != [] {
      PrependInjective(tokens[1..], s, s');
    }
  }

  lemma {:induction false} PrependSame(a: seq<Token>, b: seq<Token>, s: Stream)
    requires Prepend(a, s) == Prepend(b, s)
    ensures a == b
  {
    SizePrepend(a, s);
    SizePrepend(b, s);
    if a != [] {
      PrependSame(a[1..], b[1..], s);
      assert a == [a[0]] + a[1..] && b == [b[0]] + b[1..];
    }
  }

  /** All the tokens of a file whose tokenizer stands like this at `i`. */
  function StreamOf(t: string, st: Standing, i: nat): Stream {
    Prepend(st.tokens, From(t, st.mode, st.c, i))
  }

  /** How it stands one step later. */
  function Next(t: string, st: Standing, i: nat): Option<Standing> {
    match Pass(t, st.mode, st.c, i)
    case Goes(ts, mode, n) => Some(Standing(st.tokens + ts, mode, n.c))
    case Stops(_, _) => None
  }

  lemma {:induction false} NextIs(t: string, st: Standing, i: nat)
    requires ReadsThrough(StreamOf(t, st, i))
    ensures var next := Next(t, st, i);
            if next.Some? then StreamOf(t, st, i) == StreamOf(t, next.value, NextChar(t, i).i)
            else CharAt(t, i) == NUL && !st.mode.InText?
  {
    PassIs(t, st.mode, st.c, i);
    var p := Pass(t, st.mode, st.c, i);
    match p
    case Goes(ts, mode, n) =>
      assert n.i == NextChar(t, i).i;
      PrependConcat(st.tokens, ts, From(t, mode, n.c, n.i));
    case Stops(ts, end) =>
      PrependConcat(st.tokens, ts, end);
      ReadsThroughPrepend(st.tokens + ts, end);
  }

  /** The character a tokenizer can see at `i`: the one there, or the line break that a comment
      before it has ended in. */
  predicate Seen(t: string, c: char, i: nat) {
    c == CharAt(t, i) || c == '\n'
  }

  lemma {:induction false} Handed(t: string, i: nat)
    requires NUL !in t
    ensures var n := NextChar(t, i); Seen(t, n.c, n.i)
    decreases |t| - i, 1
  {
    if i < |t| && CharAt(t, i + 1) == '#' {
      SkipEnds(t, '#', i + 1);
    }
  }

  lemma {:induction false} SkipEnds(t: string, c: char, i: nat)
    requires NUL !in t && (c == NUL ==> i >= |t|)
    ensures var e := SkipComment(t, c, i); e.c == '\n' || e.i >= |t|
    decreases |t| - i, if EndsComment(c) then 0 else 2
  {
    if !EndsComment(c) {
      Handed(t, i);
      var n := NextChar(t, i);
      SkipEnds(t, n.c, n.i);
    }
  }

  lemma {:induction false} TextRunsOut(t: string, c: char, i: nat, text: string)
    requires i >= |t| && (c == NUL || c == '\n')
    ensures FromText(t, c, i, text) == Broken(UnterminatedString)
  {
    assert NextChar(t, i) == Scan(NUL, i);
    assert ReadTextFrom(t, NUL, i, false, text + [c]) == Bad(UnterminatedString, i);
  }

  lemma {:induction false} SpaceRunsOut(t: string, c: char, i: nat)
    requires i >= |t|
    ensures Onward(t, c, i) == End
  {
    assert NextChar(t, i) == Scan(NUL, i);
    assert NextToken(t, i) == AtEnd;
  }

  // ---------- readings that never meet ----------

  /** Two strings that differ so far: they end together, and still differ. */
  lemma {:induction false} BothInText(t: string, a: Standing, b: Standing, i: nat)
    requires NUL !in t && a.mode.InText? && b.mode.InText? && a.c == b.c && Seen(t, a.c, i)
    requires a.tokens != b.tokens || a.mode != b.mode
    requires ReadsThrough(StreamOf(t, a, i))
    ensures StreamOf(t, a, i) != StreamOf(t, b, i)
    decreases |t| - i
  {
    var x, y := a.mode.text, b.mode.text;
    if i >= |t| {
      TextRunsOut(t, a.c, i, x);
      ReadsThroughPrepend(a.tokens, FromText(t, a.c, i, x));
    } else if StreamOf(t, a, i) == StreamOf(t, b, i) {
      NextIs(t, a, i);
      NextIs(t, b, i);
      Handed(t, i);
      var n := NextChar(t, i);
      var a', b' := Next(t, a, i).value, Next(t, b, i).value;
      hide GhpermLexer.NextChar, GhpermComments.From, ReadsThrough;
      if a.c == '"' {
        PrependSame(a'.tokens, b'.tokens, From(t, Outside, CharAt(t, n.i), n.i));
        Snoc(a.tokens, Text(x), b.tokens, Text(y));
      } else {
        Snoc(x, a.c, y, b.c);
        assert a'.tokens == a.tokens && b'.tokens == b.tokens;
        BothInText(t, a', b', n.i);
      }
    }
  }

  lemma {:induction false} NextInText(t: string, st: Standing, i: nat)
    requires st.mode.InText? && Next(t, st, i).Some?
    ensures var n := NextChar(t, i);
            Next(t, st, i).value ==
            if st.c == '"' then Standing(st.tokens + [Text(st.mode.text)], Outside, CharAt(t, n.i))
            else Standing(st.tokens, InText(st.mode.text + [st.c]), n.c)
  {
    assert st.tokens + [] == st.tokens;
  }

  lemma {:induction false} NextOutside(t: string, st: Standing, i: nat)
    requires !st.mode.InText? && Next(t, st, i).Some?
    ensures var st', n := Next(t, st, i).value, NextChar(t, i);
            && (st'.mode.InText? ==> st'.mode.text == "")
            && (st'.c == n.c || (st'.mode.Outside? && st'.c == CharAt(t, n.i)))
            && (st.c == '"' && CharAt(t, i) == '"' ==> st'.mode.InText?)
  {
    hide GhpermLexer.NextChar;
  }

  /** One is within a string and the other is not: at each quote they change places. */
  lemma {:induction false} InAndOut(t: string, a: Standing, b: Standing, i: nat)
    requires NUL !in t && a.mode.InText? && !b.mode.InText? && Seen(t, a.c, i) && Seen(t, b.c, i)
    requires a.c == '\n' || b.c == CharAt(t, i)
    requires ReadsThrough(StreamOf(t, a, i))
    ensures StreamOf(t, a, i) != StreamOf(t, b, i)
    decreases |t| - i
  {
    if i >= |t| {
      TextRunsOut(t, a.c, i, a.mode.text);
      ReadsThroughPrepend(a.tokens, FromText(t, a.c, i, a.mode.text));
    } else if StreamOf(t, a, i) == StreamOf(t, b, i) {
      NextIs(t, a, i);
      NextIs(t, b, i);
      Handed(t, i);
      var n := NextChar(t, i);
      var a', b' := Next(t, a, i).value, Next(t, b, i).value;
      NextInText(t, a, i);
      NextOutside(t, b, i);
      hide GhpermLexer.NextChar, GhpermComments.From, Next, ReadsThrough, StreamOf;
      if a.c == '"' {
        InAndOut(t, b', a', n.i);
      } else if b'.mode.InText? {
        BothInText(t, a', b', n.i);
      } else {
        InAndOut(t, a', b', n.i);
      }
    }
  }

  /** `a` has read more than `b`, and `b` cannot make up for it: where they see different
      characters, `b` sees white space. */
  predicate Ahead(a: Standing, b: Standing) {
    match (a.mode, b.mode)
    case (Outside, Outside) =>
      && (b.c == a.c || IsSpace(b.c))
      && (|a.tokens| > |b.tokens| || (|a.tokens| == |b.tokens| && !IsSpace(a.c) && a.c != NUL && IsSpace(b.c)))
    case (Outside, InWord(_)) => a.c == b.c && IsWordChar(a.c) && |a.tokens| > |b.tokens|
    case (InWord(v), Outside) => v != "" && |a.tokens| >= |b.tokens|
    case (InWord(v), InWord(w)) => a.c == b.c && (|a.tokens| > |b.tokens| || (|a.tokens| == |b.tokens| && |v| > |w|))
    case (_, _) => false
  }

  /** A word that ends where `st` stands. */
  function WordDone(t: string, st: Standing, i: nat): Standing
    requires st.mode.InWord?
  {
    Standing(st.tokens + [Identifier(st.mode.word)], Outside, CharAt(t, i))
  }

  lemma {:induction false} WordDoneIs(t: string, st: Standing, i: nat)
    requires st.mode.InWord? && !IsWordChar(st.c)
    ensures StreamOf(t, st, i) == StreamOf(t, WordDone(t, st, i), i)
  {
    var word := st.mode.word;
    WordEnds(t, st.c, i, word);
    PrependConcat(st.tokens, [Identifier(word)], Onward(t, CharAt(t, i), i));
  }

  lemma {:induction false} AheadDiffers(t: string, a: Standing, b: Standing, i: nat)
    requires NUL !in t && Seen(t, a.c, i) && Seen(t, b.c, i) && Ahead(a, b)
    requires ReadsThrough(StreamOf(t, a, i))
    ensures StreamOf(t, a, i) != StreamOf(t, b, i)
    decreases |t| - i, if a.mode.Outside? then 1 else 2
  {
    if StreamOf(t, a, i) == StreamOf(t, b, i) {
      hide GhpermLexer.NextChar, GhpermComments.From, ReadsThrough, StreamOf;
      if a.mode.Outside? && b.mode.Outside? {
        BothOutside(t, a, b, i);
      } else if !IsWordChar(a.c) {
        WordDoneIs(t, a, i);
        if b.mode.InWord? {
          BothWordsEnd(t, a, b, i);
        } else {
          AheadDiffers(t, WordDone(t, a, i), b, i);
        }
      } else {
        NextIs(t, a, i);
        NextIs(t, b, i);
        Handed(t, i);
        AheadDiffers(t, Next(t, a, i).value, Next(t, b, i).value, NextChar(t, i).i);
      }
    }
  }

  lemma {:induction false} BothWordsEnd(t: string, a: Standing, b: Standing, i: nat)
    requires a.mode.InWord? && b.mode.InWord? && a.c == b.c && !IsWordChar(a.c) && Ahead(a, b)
    ensures StreamOf(t, a, i) != StreamOf(t, b, i)
  {
    WordDoneIs(t, a, i);
    WordDoneIs(t, b, i);
    if StreamOf(t, a, i) == StreamOf(t, b, i) {
      PrependSame(WordDone(t, a, i).tokens, WordDone(t, b, i).tokens, From(t, Outside, CharAt(t, i), i));
      Snoc(a.tokens, Identifier(a.mode.word), b.tokens, Identifier(b.mode.word));
    }
  }

  lemma {:induction false} BothOutside(t: string, a: Standing, b: Standing, i: nat)
    requires NUL !in t && Seen(t, a.c, i) && Seen(t, b.c, i) && Ahead(a, b) && a.mode.Outside? && b.mode.Outside?
    requires ReadsThrough(StreamOf(t, a, i))
    ensures StreamOf(t, a, i) != StreamOf(t, b, i)
    decreases |t| - i, 0
  {
    if StreamOf(t, a, i) == StreamOf(t, b, i) {
      if i >= |t| {
        SpaceRunsOut(t, a.c, i);
        SpaceRunsOut(t, b.c, i);
        PrependSame(a.tokens, b.tokens, End);
      } else if a.c == b.c {
        PrependSame(a.tokens, b.tokens, From(t, Outside, a.c, i));
      } else {
        NextIs(t, a, i);
        NextIs(t, b, i);
        Handed(t, i);
        var n := NextChar(t, i);
        var a', b' := Next(t, a, i).value, Next(t, b, i).value;
        hide GhpermLexer.NextChar, GhpermComments.From, ReadsThrough, StreamOf;
        if a'.mode.InText? {
          InAndOut(t, a', b', n.i);
        } else {
          AheadDiffers(t, a', b', n.i);
        }
      }
    }
  }

  // ---------- reading what a comment takes ----------

  /** How the tokenizer stands after `k` steps of the scanner, at `Steps(t, i, k)`. */
  function Move(t: string, st: Standing, i: nat, k: nat): Standing
    decreases k
  {
    if k == 0 then st
    else
      match Next(t, st, i)
      case Some(st') => Move(t, st', NextChar(t, i).i, k - 1)
      case None => st
  }

  lemma {:induction false} StepsAtEnd(t: string, i: nat, k: nat)
    requires i >= |t|
    ensures Steps(t, i, k) == i
  {
    if k > 0 {
      StepsAtEnd(t, i, k - 1);
    }
  }

  predicate Sound(t: string, st: Standing, i: nat) {
    Seen(t, st.c, i) && (st.mode.InWord? ==> st.mode.word != "")
  }

  lemma {:induction false} NextIsSound(t: string, st: Standing, i: nat)
    requires NUL !in t && Sound(t, st, i) && Next(t, st, i).Some?
    ensures Sound(t, Next(t, st, i).value, NextChar(t, i).i)
  {
    Handed(t, i);
    hide GhpermLexer.NextChar;
  }

  lemma {:induction false} StopsAtEnd(t: string, st: Standing, i: nat)
    requires NUL !in t && ReadsThrough(StreamOf(t, st, i)) && Next(t, st, i).None?
    ensures i >= |t|
  {
    NextIs(t, st, i);
  }

  lemma {:induction false} MoveIs(t: string, st: Standing, i: nat, k: nat)
    requires NUL !in t && ReadsThrough(StreamOf(t, st, i))
    ensures StreamOf(t, st, i) == StreamOf(t, Move(t, st, i, k), Steps(t, i, k))
    decreases k
  {
    hide Next, StreamOf, ReadsThrough, Seen, GhpermComments.Pass, GhpermComments.From, GhpermLexer.NextChar;
    if k > 0 {
      MoveFirst(t, st, i, k);
      match Next(t, st, i)
      case Some(st') =>
        NextIs(t, st, i);
        MoveIs(t, st', NextChar(t, i).i, k - 1);
      case None => StopsAtEnd(t, st, i);
    }
  }

  lemma {:induction false} MoveFirst(t: string, st: Standing, i: nat, k: nat)
    requires k > 0
    ensures Next(t, st, i).Some? ==>
              && Move(t, st, i, k) == Move(t, Next(t, st, i).value, NextChar(t, i).i, k - 1)
              && Steps(t, i, k) == Steps(t, NextChar(t, i).i, k - 1)
    ensures Next(t, st, i).None? ==> Move(t, st, i, k) == st && (i >= |t| ==> Steps(t, i, k) == i)
  {
    hide Next, GhpermLexer.NextChar;
    StepFirst(t, i, k);
    if i >= |t| {
      StepsAtEnd(t, i, k);
    }
  }

  lemma {:induction false} MoveIsSound(t: string, st: Standing, i: nat, k: nat)
    requires NUL !in t && Sound(t, st, i) && ReadsThrough(StreamOf(t, st, i))
    ensures Sound(t, Move(t, st, i, k), Steps(t, i, k))
    decreases k
  {
    hide Next, StreamOf, ReadsThrough, Seen, GhpermComments.Pass, GhpermComments.From, GhpermLexer.NextChar;
    if k > 0 {
      MoveFirst(t, st, i, k);
      match Next(t, st, i)
      case Some(st') =>
        NextIs(t, st, i);
        NextIsSound(t, st, i);
        MoveIsSound(t, st', NextChar(t, i).i, k - 1);
      case None => StopsAtEnd(t, st, i);
    }
  }

  /** Something has been read. */
  predicate Begun(st: Standing) {
    st.tokens != [] || !st.mode.Outside?
  }

  lemma {:induction false} StaysBegun(t: string, st: Standing, i: nat, k: nat)
    requires Begun(st)
    ensures Begun(Move(t, st, i, k))
    decreases k
  {
    hide GhpermLexer.NextChar;
    if k > 0 && Next(t, st, i).Some? {
      StaysBegun(t, Next(t, st, i).value, NextChar(t, i).i, k - 1);
    }
  }

  /** A string that has begun grows by a character a step, or has been read. */
  lemma {:induction false} TextGrows(t: string, st: Standing, i: nat, k: nat)
    requires NUL !in t && st.mode.InText? && Seen(t, st.c, i) && ReadsThrough(StreamOf(t, st, i))
    ensures var st' := Move(t, st, i, k);
            |st'.tokens| > |st.tokens| || (st'.mode.InText? && |st'.mode.text| == |st.mode.text| + k)
    decreases k
  {
    if k > 0 {
      NextIs(t, st, i);
      Handed(t, i);
      if i >= |t| {
        TextRunsOut(t, st.c, i, st.mode.text);
        ReadsThroughPrepend(st.tokens, FromText(t, st.c, i, st.mode.text));
      }
      hide GhpermLexer.NextChar, GhpermComments.From, ReadsThrough, StreamOf;
      var st' := Next(t, st, i).value;
      if st.c == '"' {
        TokensStay(t, st', NextChar(t, i).i, k - 1);
      } else {
        TextGrows(t, st', NextChar(t, i).i, k - 1);
      }
    }
  }

  lemma {:induction false} TokensStay(t: string, st: Standing, i: nat, k: nat)
    ensures |Move(t, st, i, k).tokens| >= |st.tokens|
    decreases k
  {
    hide GhpermLexer.NextChar;
    if k > 0 && Next(t, st, i).Some? {
      TokensStay(t, Next(t, st, i).value, NextChar(t, i).i, k - 1);
    }
  }

  /** The character handed out after `k` steps, and where. */
  function Scanned(t: string, c: char, i: nat, k: nat): Scan
    decreases k
  {
    if k == 0 then Scan(c, i) else Scanned(t, NextChar(t, i).c, NextChar(t, i).i, k - 1)
  }

  /** The first `k` characters handed out are white space, or the text ends before. */
  predicate PassesSpace(t: string, c: char, i: nat, k: nat)
    decreases k
  {
    k == 0 || i >= |t| || (IsSpace(c) && PassesSpace(t, NextChar(t, i).c, NextChar(t, i).i, k - 1))
  }

  lemma {:induction false} ScannedAt(t: string, c: char, i: nat, k: nat)
    ensures Scanned(t, c, i, k).i == Steps(t, i, k)
    decreases k
  {
    if k > 0 {
      StepFirst(t, i, k);
      ScannedAt(t, NextChar(t, i).c, NextChar(t, i).i, k - 1);
    }
  }

  /** White space is passed without a trace. */
  lemma {:induction false} SpacePassed(t: string, c: char, i: nat, k: nat)
    requires PassesSpace(t, c, i, k)
    ensures var s := Scanned(t, c, i, k); Onward(t, c, i) == Onward(t, s.c, s.i)
    decreases k
  {
    if i >= |t| {
      SpaceRunsOut(t, c, i);
      ScannedAt(t, c, i, k);
      StepsAtEnd(t, i, k);
      SpaceRunsOut(t, Scanned(t, c, i, k).c, i);
    } else if k > 0 {
      SpacePassed(t, NextChar(t, i).c, NextChar(t, i).i, k - 1);
      SkipsOnward(t, c, i);
    }
  }

  /** Anything else leaves one. */
  lemma {:induction false} SolidBegins(t: string, c: char, i: nat, k: nat)
    requires NUL !in t && Seen(t, c, i) && !PassesSpace(t, c, i, k) && ReadsThrough(Onward(t, c, i))
    ensures Begun(Move(t, Standing([], Outside, c), i, k))
    decreases k
  {
    var st, n := Standing([], Outside, c), NextChar(t, i);
    assert StreamOf(t, st, i) == Onward(t, c, i);
    NextIs(t, st, i);
    Handed(t, i);
    hide GhpermLexer.NextChar, Onward, ReadsThrough;
    if IsSpace(c) {
      assert StreamOf(t, Next(t, st, i).value, n.i) == Onward(t, n.c, n.i);
      SolidBegins(t, n.c, n.i, k - 1);
    } else {
      StaysBegun(t, Next(t, st, i).value, n.i, k - 1);
    }
  }

  lemma {:induction false} SpaceMoves(t: string, c: char, i: nat, k: nat)
    requires NUL !in t && Seen(t, c, i) && PassesSpace(t, c, i, k)
    ensures Move(t, Standing([], Outside, c), i, k) == Standing([], Outside, Scanned(t, c, i, k).c)
    decreases k
  {
    if k > 0 {
      Handed(t, i);
      var n := NextChar(t, i);
      if i >= |t| {
        assert PassesSpace(t, n.c, n.i, k - 1);
      }
      if IsSpace(c) {
        SpaceMoves(t, n.c, n.i, k - 1);
      } else {
        ScannedEnd(t, i, k);
      }
    }
  }

  lemma {:induction false} ScannedEnd(t: string, i: nat, k: nat)
    requires i >= |t|
    ensures Scanned(t, NUL, i, k) == Scan(NUL, i)
  {
    if k > 0 {
      ScannedEnd(t, i, k - 1);
    }
  }
}
