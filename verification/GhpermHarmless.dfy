/** When a comment can be taken out of a GHPERM file (src/ghost/perms/parser.c, lines 14-142). */
module GhpermHarmless {
  import opened Basics
  import opened GhpermLexer
  import opened GhpermComments
  import opened GhpermPlaces
  import opened GhpermReadings
  import opened GhpermSpare
  import opened GhpermText

  // ---------- when nothing is missed ----------

  /** What the tokenizer sees behind a comment: the line break that ended it, or, if that has
      ended a token, whatever stands where the scanner is. */
  function SeenBehind(place: Place, t: string, j: nat): char {
    if place.Behind? then CharAt(t, j) else '\n'
  }

  /** On `k` further steps nothing but white space is passed, and then both see white space or
      neither does. */
  predicate SpaceOnly(t: string, place: Place, i: nat, k: nat) {
    var c := SeenBehind(place, t, i);
    var s := Scanned(t, c, i, k);
    PassesSpace(t, c, i, k) && (s.i >= |t| || (IsSpace(s.c) <==> IsSpace(SeenBehind(place, t, s.i))))
  }

  /** How many steps a comment adds. */
  function StepsOf(body: string): nat {
    1 + Hashes(body, 0, |body|)
  }

  predicate Harmless(m: Met, body: string, rest: string) {
    var t := "\n" + rest;
    match m.place
    case White | Behind => SpaceOnly(t, m.place, Steps(t, 0, m.owed), StepsOf(body))
    case Inside(_) => false
    case Ended(_) => true
  }

  lemma {:induction false} SameSpace(t: string, c: char, c': char, i: nat)
    requires IsSpace(c) <==> IsSpace(c')
    ensures Onward(t, c, i) == Onward(t, c', i)
  {
  }

  lemma {:induction false} SpaceOnlyIsHarmless(t: string, place: Place, i: nat, k: nat)
    requires (place.White? || place.Behind?) && SpaceOnly(t, place, i, k)
    ensures Resumed(place, t, Steps(t, i, k)) == Resumed(place, t, i)
  {
    hide Onward, Steps, PassesSpace;
    var c := SeenBehind(place, t, i);
    var s := Scanned(t, c, i, k);
    ScannedAt(t, c, i, k);
    SpacePassed(t, c, i, k);
    if s.i >= |t| {
      SpaceRunsOut(t, s.c, s.i);
      SpaceRunsOut(t, SeenBehind(place, t, s.i), s.i);
    } else {
      SameSpace(t, s.c, SeenBehind(place, t, s.i), s.i);
    }
  }

  // ---------- what was taken is read instead ----------

  /** A word of one letter. */
  lemma {:induction false} LetterAt(t: string, i: nat)
    requires i < |t| && IsWordChar(t[i]) && !IsWordChar(NextChar(t, i).c)
    ensures var n := NextChar(t, i); Onward(t, t[i], i) == More(Identifier([t[i]]), Onward(t, CharAt(t, n.i), n.i))
  {
    PassOutsideIs(t, i);
    var n := NextChar(t, i);
    WordEnds(t, n.c, n.i, [t[i]]);
    hide GhpermLexer.NextChar, FromWord;
  }

  /** The token that a brace or a word of one letter at `i` makes. */
  function OneCharToken(t: string, i: nat): Option<Token> {
    var c := CharAt(t, i);
    if c == '{' then Some(LBrace)
    else if c == '}' then Some(RBrace)
    else if IsWordChar(c) && !IsWordChar(NextChar(t, i).c) then Some(Identifier([c]))
    else None
  }

  lemma {:induction false} OneCharIs(t: string, i: nat)
    requires i < |t| && OneCharToken(t, i).Some?
    ensures var n := NextChar(t, i);
            Onward(t, t[i], i) == More(OneCharToken(t, i).value, Onward(t, CharAt(t, n.i), n.i))
  {
    if IsWordChar(t[i]) {
      LetterAt(t, i);
    } else {
      PassOutsideIs(t, i);
    }
  }

  /** The scanner has handed out a line break at `i`, where something solid stands. */
  predicate Covered(t: string, c: char, i: nat) {
    i < |t| && IsSpace(c) && !IsSpace(t[i])
  }

  /** The tokens taken are read once more: each is a character on its own, and stands where the
      scanner comes to behind a comment. */
  predicate Repeats(t: string, taken: seq<Token>, i: nat)
    decreases |taken|
  {
    var n := NextChar(t, i);
    && taken != [] && OneCharToken(t, i) == Some(taken[0])
    && if Covered(t, n.c, n.i) then Repeats(t, taken[1..], n.i) else |taken| == 1
  }

  lemma {:induction false} RepeatsIff(t: string, taken: seq<Token>, i: nat)
    requires NUL !in t && i < |t| && !IsSpace(t[i]) && ReadsThrough(Prepend(taken, Onward(t, '\n', i)))
    ensures Prepend(taken, Onward(t, '\n', i)) == Onward(t, t[i], i) <==> Repeats(t, taken, i)
    decreases |taken|
  {
    var a, b, n := Standing(taken, Outside, '\n'), Standing([], Outside, t[i]), NextChar(t, i);
    assert StreamOf(t, a, i) == Prepend(taken, Onward(t, '\n', i));
    assert StreamOf(t, b, i) == Onward(t, t[i], i);
    if taken == [] {
      if StreamOf(t, a, i) == StreamOf(t, b, i) {
        AheadDiffers(t, b, a, i);
      }
    } else if OneCharToken(t, i).Some? {
      RepeatsOne(t, taken, i);
      if Covered(t, n.c, n.i) {
        RepeatsIff(t, taken[1..], n.i);
      }
    } else {
      LongTokenDiffers(t, taken, i);
    }
  }

  lemma {:induction false} RepeatsOne(t: string, taken: seq<Token>, i: nat)
    requires NUL !in t && i < |t| && OneCharToken(t, i).Some? && taken != []
    requires ReadsThrough(Prepend(taken, Onward(t, '\n', i)))
    ensures var n := NextChar(t, i);
            if Covered(t, n.c, n.i) then
              && ReadsThrough(Prepend(taken[1..], Onward(t, '\n', n.i)))
              && (Prepend(taken, Onward(t, '\n', i)) == Onward(t, t[i], i) <==>
                  OneCharToken(t, i) == Some(taken[0]) && Prepend(taken[1..], Onward(t, '\n', n.i)) ==
                      Onward(t, t[n.i], n.i))
            else Prepend(taken, Onward(t, '\n', i)) == Onward(t, t[i], i) <==>
                OneCharToken(t, i) == Some(taken[0]) && |taken| == 1
  {
    var n := NextChar(t, i);
    OneCharIs(t, i);
    SkipsOnward(t, '\n', i);
    Handed(t, i);
    hide GhpermLexer.NextChar, OneCharToken, Onward;
    if !Covered(t, n.c, n.i) {
      SeenAlike(t, n.c, n.i);
      var z := Onward(t, CharAt(t, n.i), n.i);
      assert Prepend([], z) == z;
      if Prepend(taken[1..], z) == z {
        PrependSame(taken[1..], [], z);
      }
    }
  }

  lemma {:induction false} SeenAlike(t: string, c: char, i: nat)
    requires Seen(t, c, i) && !Covered(t, c, i)
    ensures Onward(t, c, i) == Onward(t, CharAt(t, i), i)
  {
    if i >= |t| {
      SpaceRunsOut(t, c, i);
      SpaceRunsOut(t, CharAt(t, i), i);
    } else {
      SameSpace(t, c, CharAt(t, i), i);
    }
  }

  lemma {:induction false} LongTokenDiffers(t: string, taken: seq<Token>, i: nat)
    requires NUL !in t && i < |t| && !IsSpace(t[i]) && OneCharToken(t, i).None? && taken != []
    requires ReadsThrough(Prepend(taken, Onward(t, '\n', i)))
    ensures Prepend(taken, Onward(t, '\n', i)) != Onward(t, t[i], i)
  {
    var a, b, n := Standing(taken, Outside, '\n'), Standing([], Outside, t[i]), NextChar(t, i);
    assert StreamOf(t, a, i) == Prepend(taken, Onward(t, '\n', i));
    assert StreamOf(t, b, i) == Onward(t, t[i], i);
    if StreamOf(t, a, i) == StreamOf(t, b, i) {
      NextIs(t, a, i);
      NextIs(t, b, i);
      Handed(t, i);
      var a', b' := Next(t, a, i).value, Next(t, b, i).value;
      assert a'.tokens == taken + [] == taken;
      hide GhpermLexer.NextChar, GhpermComments.From, ReadsThrough, StreamOf;
      if b'.mode.InText? {
        InAndOut(t, b', a', n.i);
      } else {
        AheadDiffers(t, a', b', n.i);
      }
    }
  }

  /** Behind a token, the tokens taken may be read instead from where another comment has left
      the scanner. */
  predicate Again(t: string, place: Place, i: nat, k: nat) {
    var st, j := Move(t, Standing([], Outside, SeenBehind(place, t, i)), i, k), Steps(t, i, k);
    place.Behind? && st.mode.Outside? && Covered(t, st.c, j) && Repeats(t, st.tokens, j)
  }

  predicate ByChance(m: Met, body: string, rest: string) {
    var t := "\n" + rest;
    Again(t, m.place, Steps(t, 0, m.owed), StepsOf(body))
  }

  lemma {:induction false} EndDiffers(t: string, st: Standing, i: nat)
    requires NUL !in t && Seen(t, st.c, i) && i >= |t| && Begun(st)
    ensures StreamOf(t, st, i) != End
  {
    if st.mode.InText? {
      TextRunsOut(t, st.c, i, st.mode.text);
    }
  }

  /** Within a string, against white space with nothing read before it. */
  lemma {:induction false} InAndBlank(t: string, a: Standing, b: Standing, i: nat)
    requires NUL !in t && a.mode.InText? && Seen(t, a.c, i) && b == Standing([], Outside, '\n') && i < |t|
    requires ReadsThrough(StreamOf(t, a, i))
    ensures StreamOf(t, a, i) != StreamOf(t, b, i)
  {
    if StreamOf(t, a, i) == StreamOf(t, b, i) {
      NextIs(t, a, i);
      NextIs(t, b, i);
      Handed(t, i);
      var n := NextChar(t, i);
      var a', b' := Next(t, a, i).value, Next(t, b, i).value;
      hide GhpermLexer.NextChar, GhpermComments.From, ReadsThrough, StreamOf;
      if a.c == '"' {
        AheadDiffers(t, a', b', n.i);
      } else {
        InAndOut(t, a', b', n.i);
      }
    }
  }

  lemma {:induction false} SolidDiffers(t: string, a: Standing, b: Standing, i: nat)
    requires NUL !in t && Sound(t, a, i) && Begun(a) && i < |t|
    requires b == Standing([], Outside, '\n') || b == Standing([], Outside, CharAt(t, i))
    requires a.mode.Outside? ==> IsSpace(b.c) || a.c == b.c
    requires ReadsThrough(StreamOf(t, a, i))
    ensures StreamOf(t, a, i) != StreamOf(t, b, i)
  {
    hide GhpermLexer.NextChar, GhpermComments.From, ReadsThrough, StreamOf;
    if !a.mode.InText? {
      AheadDiffers(t, a, b, i);
    } else if b.c == CharAt(t, i) {
      InAndOut(t, a, b, i);
    } else {
      InAndBlank(t, a, b, i);
    }
  }

  /** Whatever was read after `k` steps is missed, unless it is read once more. */
  lemma {:induction false} SolidIsMissed(t: string, st: Standing, i: nat, place: Place)
    requires NUL !in t && Sound(t, st, i) && Begun(st) && (place.White? || place.Behind?)
    requires ReadsThrough(StreamOf(t, st, i))
    ensures StreamOf(t, st, i) == Onward(t, SeenBehind(place, t, i), i) <==>
            place.Behind? && st.mode.Outside? && Covered(t, st.c, i) && Repeats(t, st.tokens, i)
  {
    var b := Standing([], Outside, SeenBehind(place, t, i));
    assert StreamOf(t, b, i) == Onward(t, b.c, i);
    if i >= |t| {
      EndDiffers(t, st, i);
      SpaceRunsOut(t, b.c, i);
    } else if st.mode.Outside? && Covered(t, st.c, i) && place.Behind? {
      assert StreamOf(t, st, i) == Prepend(st.tokens, Onward(t, '\n', i));
      RepeatsIff(t, st.tokens, i);
    } else {
      if st.mode.Outside? && IsSpace(st.c) && IsSpace(b.c) {
        SpacesDiffer(t, st, b, i);
      } else {
        SolidDiffers(t, st, b, i);
      }
    }
  }

  lemma {:induction false} SpacesDiffer(t: string, a: Standing, b: Standing, i: nat)
    requires a.mode.Outside? && b.mode.Outside? && IsSpace(a.c) && IsSpace(b.c) && a.tokens != b.tokens
    ensures StreamOf(t, a, i) != StreamOf(t, b, i)
  {
    SameSpace(t, a.c, b.c, i);
    if StreamOf(t, a, i) == StreamOf(t, b, i) {
      PrependSame(a.tokens, b.tokens, Onward(t, a.c, i));
    }
  }

  lemma {:induction false} PlaceIff(t: string, place: Place, i: nat, k: nat)
    requires NUL !in t && (place.White? || place.Behind?) && ReadsThrough(Resumed(place, t, i))
    ensures Resumed(place, t, Steps(t, i, k)) == Resumed(place, t, i) <==>
            SpaceOnly(t, place, i, k) || Again(t, place, i, k)
  {
    var c, j := SeenBehind(place, t, i), Steps(t, i, k);
    var a, s := Standing([], Outside, c), Scanned(t, c, i, k);
    var a', b := Move(t, a, i, k), Standing([], Outside, SeenBehind(place, t, j));
    assert StreamOf(t, a, i) == Onward(t, c, i) == Resumed(place, t, i);
    assert StreamOf(t, b, j) == Onward(t, b.c, j) == Resumed(place, t, j);
    MoveIs(t, a, i, k);
    MoveIsSound(t, a, i, k);
    ScannedAt(t, c, i, k);
    if PassesSpace(t, c, i, k) {
      SpaceMoves(t, c, i, k);
      assert !Repeats(t, a'.tokens, j);
    } else {
      SolidBegins(t, c, i, k);
      SolidIsMissed(t, a', j, place);
    }
    hide GhpermLexer.NextChar, GhpermComments.From, ReadsThrough, StreamOf, Steps, Move, Scanned, Resumed, PassesSpace,
      Onward, Repeats;
    if SpaceOnly(t, place, i, k) {
      SpaceOnlyIsHarmless(t, place, i, k);
    } else if PassesSpace(t, c, i, k) && StreamOf(t, b, j) == StreamOf(t, a', j) {
      if IsSpace(s.c) {
        AheadDiffers(t, b, a', j);
      } else {
        AheadDiffers(t, a', b, j);
      }
    }
  }

  /** In a string, the line break has become part of it. */
  lemma {:induction false} TextIsMissed(t: string, text: string, i: nat, k: nat)
    requires NUL !in t && k > 0 && ReadsThrough(FromText(t, '\n', i, text))
    ensures FromText(t, '\n', Steps(t, i, k), text) != FromText(t, '\n', i, text)
  {
    var a, j := Standing([], InText(text), '\n'), Steps(t, i, k);
    var a' := Move(t, a, i, k);
    assert StreamOf(t, a, i) == FromText(t, '\n', i, text);
    assert StreamOf(t, a, j) == FromText(t, '\n', j, text);
    MoveIs(t, a, i, k);
    MoveIsSound(t, a, i, k);
    TextGrows(t, a, i, k);
    hide GhpermLexer.NextChar, GhpermComments.From, ReadsThrough, StreamOf, Steps, Move;
    if StreamOf(t, a, j) == StreamOf(t, a', j) {
      if a'.mode.InText? {
        LongerText(t, a', a, j);
      } else {
        InAndOut(t, a, a', j);
      }
    }
  }

  lemma {:induction false} LongerText(t: string, a: Standing, b: Standing, i: nat)
    requires NUL !in t && a.mode.InText? && b.mode.InText? && Seen(t, a.c, i) && b.c == '\n'
    requires |a.tokens| != |b.tokens| || |a.mode.text| != |b.mode.text|
    requires ReadsThrough(StreamOf(t, a, i))
    ensures StreamOf(t, a, i) != StreamOf(t, b, i)
  {
    if i >= |t| {
      TextRunsOut(t, a.c, i, a.mode.text);
      ReadsThroughPrepend(a.tokens, FromText(t, a.c, i, a.mode.text));
    } else if StreamOf(t, a, i) == StreamOf(t, b, i) {
      NextIs(t, a, i);
      NextIs(t, b, i);
      Handed(t, i);
      var n := NextChar(t, i);
      var a', b' := Next(t, a, i).value, Next(t, b, i).value;
      hide GhpermLexer.NextChar, GhpermComments.From, ReadsThrough, StreamOf;
      if a.c == '"' {
        InAndOut(t, b', a', n.i);
      } else {
        BothInText(t, a', b', n.i);
      }
    }
  }

  /** Wherever a comment is met, whatever is in it and behind it: if nothing but white space is
      passed, and white space is met where it is expected, it can be taken out. */
  lemma {:induction false} CommentHarmless(a: string, body: string, rest: string)
    requires a != "" && Meets(a).Some? && OneLine(body) && Harmless(Meets(a).value, body, rest)
    ensures Lex(a + Comment(body) + rest) == Lex(a + "\n" + rest)
  {
    hide Meets, SpaceOnly, GhpermLexer.Lex, Comment, Steps;
    var m, t := Meets(a).value, "\n" + rest;
    CommentTakes(a, body, rest);
    StepsAdd(t, 0, m.owed, StepsOf(body));
    if m.place.White? || m.place.Behind? {
      SpaceOnlyIsHarmless(t, m.place, Steps(t, 0, m.owed), StepsOf(body));
    }
  }

  lemma {:induction false} ResumedIff(m: Met, body: string, rest: string)
    requires var t := "\n" + rest; NUL !in t && ReadsThrough(Resumed(m.place, t, Steps(t, 0, m.owed)))
    ensures var t := "\n" + rest;
            Resumed(m.place, t, Steps(t, 0, m.owed + StepsOf(body))) == Resumed(m.place, t, Steps(t, 0, m.owed)) <==>
            Harmless(m, body, rest) || ByChance(m, body, rest)
  {
    hide Steps, SpaceOnly, Again, ReadsThrough, Onward, FromText;
    var t, k := "\n" + rest, StepsOf(body);
    var j := Steps(t, 0, m.owed);
    StepsAdd(t, 0, m.owed, k);
    match m.place
    case White | Behind => PlaceIff(t, m.place, j, k);
    case Inside(text) =>
      TextIsMissed(t, text, j, k);
      OnlyBehind(t, m.place, j, k);
    case Ended(_) =>
  }

  lemma {:induction false} OnlyBehind(t: string, place: Place, i: nat, k: nat)
    requires !place.Behind?
    ensures !Again(t, place, i, k)
  {
  }

  /** If the file can be read without it, a comment can be taken out only then, or by chance. */
  lemma {:induction false} CommentHarmlessIff(a: string, body: string, rest: string)
    requires a != "" && Meets(a).Some? && OneLine(body) && NUL !in rest && ReadsThrough(Lex(a + "\n" + rest))
    ensures var m := Meets(a).value;
            Lex(a + Comment(body) + rest) == Lex(a + "\n" + rest) <==>
            Harmless(m, body, rest) || ByChance(m, body, rest)
  {
    hide GhpermLexer.Lex, Comment, Meets, Steps, Harmless, ByChance, ReadsThrough, Resumed;
    var m, t, k := Meets(a).value, "\n" + rest, StepsOf(body);
    var with, without := Resumed(m.place, t, Steps(t, 0, m.owed + k)), Resumed(m.place, t, Steps(t, 0, m.owed));
    CommentTakes(a, body, rest);
    PrependInjective(m.tokens, with, without);
    ReadsThroughPrepend(m.tokens, without);
    ResumedIff(m, body, rest);
  }

  // ---------- comments with one `#` ----------

  lemma {:induction false} NoHashes(body: string, i: nat)
    requires '#' !in body && i <= |body|
    ensures Hashes(body, i, |body|) == 0
    decreases |body| - i
  {
    if i < |body| {
      NoHashes(body, i + 1);
    }
  }

  /** What one step more passes, and what is seen behind it: nothing but white space, or in both
      cases what is not. */
  predicate SpareStep(t: string, place: Place, i: nat) {
    var n := NextChar(t, i);
    match place
    case White => n.i >= |t| || IsSpace(n.c)
    case Behind =>
      && (i >= |t| || IsSpace(t[i]))
      && (n.i >= |t| || (IsSpace(n.c) <==> IsSpace(t[n.i])))
    case Inside(_) => false
    case Ended(_) => true
  }

  lemma {:induction false} StepsOne(t: string, i: nat)
    ensures Steps(t, i, 1) == NextChar(t, i).i
  {
    assert Steps(t, i, 0) == i;
  }

  lemma {:induction false} OneHash(m: Met, body: string, rest: string)
    requires '#' !in body && NUL !in rest
    ensures Harmless(m, body, rest) <==> SpareStep("\n" + rest, m.place, Steps("\n" + rest, 0, m.owed))
    ensures !ByChance(m, body, rest)
  {
    hide Steps;
    NoHashes(body, 0);
    var t := "\n" + rest;
    var i := Steps(t, 0, m.owed);
    StepsOne(t, i);
    if m.place.White? || m.place.Behind? {
      OneSpace(t, m.place, i);
    }
    NotAgain(t, m.place, i);
  }

  lemma {:induction false} OneSpace(t: string, place: Place, i: nat)
    requires NUL !in t && (place.White? || place.Behind?)
    ensures SpaceOnly(t, place, i, 1) <==> SpareStep(t, place, i)
  {
    var c, n := SeenBehind(place, t, i), NextChar(t, i);
    assert Scanned(t, n.c, n.i, 0) == n;
    assert Scanned(t, c, i, 1) == n && PassesSpace(t, n.c, n.i, 0);
  }

  lemma {:induction false} NotAgain(t: string, place: Place, i: nat)
    requires NUL !in t
    ensures !Again(t, place, i, 1)
  {
    var st, n := Standing([], Outside, SeenBehind(place, t, i)), NextChar(t, i);
    StepsOne(t, i);
    assert Move(t, st, i, 1) == if Next(t, st, i).Some? then Next(t, st, i).value else st;
    hide GhpermLexer.NextChar, Steps, Move;
  }

  /** Of a comment that is met with no more steps to take: behind white space, nothing, white space or
      another comment may come first in the next line; behind a token only a comment must not, unless
      what that leaves the scanner at is white space; and in a string, nothing may. */
  predicate HarmlessBefore(place: Place, rest: string) {
    match place
    case White => rest == "" || IsSpace(rest[0]) || rest[0] == '#'
    case Behind =>
      || rest == "" || rest[0] != '#'
      || (var j := NextChar("\n" + rest, 0).i; j > |rest| || IsSpace(rest[j - 1]))
    case Inside(_) => false
    case Ended(_) => true
  }

  lemma {:induction false} HarmlessBeforeIs(place: Place, rest: string)
    requires NUL !in rest
    ensures SpareStep("\n" + rest, place, 0) <==> HarmlessBefore(place, rest)
  {
    var t := "\n" + rest;
    var n := NextChar(t, 0);
    Handed(t, 0);
    if rest != "" {
      assert t[1] == rest[0];
      assert rest[0] == '#' ==> EndsComment(n.c);
    }
    assert n.i <= |rest| ==> t[n.i] == rest[n.i - 1];
  }

  /** A comment with one `#` can be taken out exactly when the step that it adds can be spared. */
  lemma {:induction false} PlainCommentIff(a: string, body: string, rest: string)
    requires a != "" && Meets(a).Some? && OneLine(body) && '#' !in body && NUL !in rest
    requires ReadsThrough(Lex(a + "\n" + rest))
    ensures var m, t := Meets(a).value, "\n" + rest;
            && (Lex(a + Comment(body) + rest) == Lex(a + "\n" + rest) <==> SpareStep(t, m.place, Steps(t, 0, m.owed)))
            && (m.owed == 0 ==>
                  (Lex(a + Comment(body) + rest) == Lex(a + "\n" + rest) <==> HarmlessBefore(m.place, rest)))
  {
    hide GhpermLexer.Lex, Meets, Comment, ReadsThrough, SpareStep, HarmlessBefore;
    OneHash(Meets(a).value, body, rest);
    CommentHarmlessIff(a, body, rest);
    HarmlessBeforeIs(Meets(a).value.place, rest);
    StepsNone("\n" + rest, 0);
  }

  // ---------- a comment before text without comments ----------

  /** How many characters behind its line go with a comment. */
  function Lost(m: Met, body: string, rest: string): (d: nat)
    ensures d <= |rest|
  {
    var k := StepsOf(body) - if m.place.Behind? && m.owed == 0 then 1 else 0;
    if k < |rest| then k else |rest|
  }

  lemma {:induction false} StepsWithin(t: string, i: nat, n: nat)
    requires i <= |t| && forall j | i < j < |t| && j <= i + n :: t[j] != '#'
    ensures Steps(t, i, n) == if i + n < |t| then i + n else |t|
  {
    if n > 0 {
      StepsWithin(t, i, n - 1);
    }
  }

  lemma {:induction false} OneStep(t: string, j: nat)
    requires j <= |t| && (j + 1 < |t| ==> t[j + 1] != '#')
    ensures NextChar(t, j) == if j < |t| then Scan(CharAt(t, j + 1), j + 1) else Scan(NUL, j)
  {
  }

  /** A line break in white space, or in a string, that is `s` behind it. */
  lemma {:induction false} BreakThen(p: string, s: string, j: nat, text: string)
    requires NextChar(p + s, j) == Scan(CharAt(s, 0), |p|)
    ensures Onward(p + s, '\n', j) == Onward(s, CharAt(s, 0), 0)
    ensures FromText(p + s, '\n', j, text) == FromText(s, CharAt(s, 0), 0, text + "\n")
  {
    SkipsOnward(p + s, '\n', j);
    ShiftOnward(p, s, CharAt(s, 0), 0);
    BreakInText(p + s, j, text);
    ShiftFromText(p, s, CharAt(s, 0), 0, text + "\n");
  }

  lemma {:induction false} BreakInText(t: string, j: nat, text: string)
    ensures var n := NextChar(t, j); FromText(t, '\n', j, text) == FromText(t, n.c, n.i, text + "\n")
  {
  }

  lemma {:induction false} LostAt(m: Met, body: string, rest: string)
    requires m.owed == 0 && forall j | 0 <= j < |rest| && j <= StepsOf(body) :: rest[j] != '#'
    ensures var d, t := Lost(m, body, rest), "\n" + rest;
            var s, j := rest[d..], Steps(t, 0, StepsOf(body));
            && t == ("\n" + rest[..d]) + s
            && (if m.place.Behind? then j == d + 1 && CharAt(t, j) == CharAt(s, 0)
                else NextChar(t, j) == Scan(CharAt(s, 0), d + 1))
            && NextChar("\n" + s, 0) == Scan(CharAt(s, 0), 1)
  {
    var t, d := "\n" + rest, Lost(m, body, rest);
    assert forall j | 0 < j < |t| :: t[j] == rest[j - 1];
    StepsWithin(t, 0, StepsOf(body));
    hide StepsOf, Steps, GhpermLexer.NextChar;
    OneStep(t, Steps(t, 0, StepsOf(body)));
    assert d < |rest| ==> rest[d..][0] == rest[d] && ("\n" + rest[d..])[1] == rest[d];
    OneStep("\n" + rest[d..], 0);
  }

  lemma {:induction false} ResumedLost(m: Met, body: string, rest: string)
    requires m.owed == 0 && forall j | 0 <= j < |rest| && j <= StepsOf(body) :: rest[j] != '#'
    ensures Resumed(m.place, "\n" + rest, Steps("\n" + rest, 0, StepsOf(body))) ==
            Resumed(m.place, "\n" + rest[Lost(m, body, rest)..], 0)
  {
    var d, t := Lost(m, body, rest), "\n" + rest;
    var s, j, text := rest[d..], Steps(t, 0, StepsOf(body)), if m.place.Inside? then m.place.text else "";
    LostAt(m, body, rest);
    hide GhpermLexer.NextChar, Lost, Steps, StepsOf, Onward, FromText;
    BreakThen("\n", s, 0, text);
    if m.place.Behind? {
      ShiftOnward("\n" + rest[..d], s, CharAt(s, 0), 0);
    } else {
      BreakThen("\n" + rest[..d], s, j, text);
    }
  }

  /** With steps owed, the line break is passed over too, and the characters behind are all alike. */
  lemma {:induction false} OwedLost(m: Met, body: string, rest: string)
    requires m.owed > 0 && forall j | 0 <= j < |rest| && j <= m.owed + StepsOf(body) :: rest[j] != '#'
    ensures var t, t' := "\n" + rest, "\n" + rest[Lost(m, body, rest)..];
            Resumed(m.place, t, Steps(t, 0, m.owed + StepsOf(body))) == Resumed(m.place, t', Steps(t', 0, m.owed))
  {
    var d := Lost(m, body, rest);
    var t, t' := "\n" + rest, "\n" + rest[d..];
    assert forall j | 0 < j < |t| :: t[j] == rest[j - 1];
    assert forall j | 0 < j < |t'| :: t'[j] == rest[d + j - 1];
    hide Steps, Resumed;
    StepsWithin(t, 0, m.owed + StepsOf(body));
    StepsWithin(t', 0, m.owed);
    var i, i' := Steps(t, 0, m.owed + StepsOf(body)), Steps(t', 0, m.owed);
    assert t[i..] == t'[i'..];
    SameEnd(t, t', m.place, i, i');
  }

  lemma {:induction false} SameEnd(t: string, t': string, place: Place, i: nat, i': nat)
    requires i <= |t| && i' <= |t'| && t[i..] == t'[i'..]
    ensures Resumed(place, t, i) == Resumed(place, t', i')
  {
    hide Resumed;
    assert t == t[..i] + t[i..] && t' == t'[..i'] + t[i..];
    ShiftResumed(t[..i], t[i..], place, 0);
    ShiftResumed(t'[..i'], t[i..], place, 0);
  }

  /** Where no comment is near behind it, a comment is a line break that takes one character with
      it for every `#` in it, and one less if it is met behind a token with no more steps to take. */
  lemma {:induction false} CommentDrops(a: string, body: string, rest: string)
    requires a != "" && Meets(a).Some? && OneLine(body)
    requires forall j | 0 <= j < |rest| && j <= Meets(a).value.owed + StepsOf(body) :: rest[j] != '#'
    ensures Lex(a + Comment(body) + rest) == Lex(a + "\n" + rest[Lost(Meets(a).value, body, rest)..])
  {
    hide GhpermLexer.Lex, Meets, Comment, Resumed, Lost, Steps;
    var m := Meets(a).value;
    var s := rest[Lost(m, body, rest)..];
    CommentTakes(a, body, rest);
    CommentTakes(a, body, s);
    if m.owed == 0 {
      StepsNone("\n" + s, 0);
      ResumedLost(m, body, rest);
    } else {
      OwedLost(m, body, rest);
    }
  }

  /** The only comment of a file, with one `#`, can be taken out exactly when it stands right
      behind a token, or what stands behind its line can spare its first character. That goes for
      files with errors too. */
  lemma {:induction false} OnlyCommentIff(items: seq<Item>, body: string, rest: string)
    requires Legible(items) && Render(items) != "" && OneLine(body) && '#' !in body && '#' !in rest
    ensures var a := Render(items);
            Lex(a + Comment(body) + rest) == Lex(a + "\n" + rest) <==>
                PlaceAfter(items).Behind? || rest == "" || Spare(rest)
  {
    hide GhpermLexer.Lex, Comment, Render, PlaceAfter, Spare, Meets, Steps, StandsAt, BeforeBreak, Resumed, Lost,
      TokensOf;
    var a, t, m := Render(items), "\n" + rest, Met(TokensOf(items), PlaceAfter(items), 0);
    WrittenStands(items);
    StandsMeets(a);
    assert Meets(a) == Some(m);
    NoHashes(body, 0);
    StepsNone(t, 0);
    CommentTakes(a, body, rest);
    PrependInjective(m.tokens, Resumed(m.place, t, Steps(t, 0, 1)), Resumed(m.place, t, 0));
    ResumedLost(m, body, rest);
    OneLost(m, body, rest);
  }

  lemma {:induction false} OneLost(m: Met, body: string, rest: string)
    requires m.owed == 0 && (m.place.White? || m.place.Behind?) && '#' !in body && '#' !in rest
    ensures var t, t' := "\n" + rest, "\n" + rest[Lost(m, body, rest)..];
            Resumed(m.place, t', 0) == Resumed(m.place, t, 0) <==> m.place.Behind? || rest == "" || Spare(rest)
  {
    hide Onward, Spare, GhpermLexer.Lex;
    NoHashes(body, 0);
    if m.place.White? && rest != "" {
      AfterBreak(rest);
      AfterBreak(rest[1..]);
      DropFirstIff(rest);
    }
  }

  lemma {:induction false} AfterBreak(rest: string)
    requires '#' !in rest
    ensures Onward("\n" + rest, '\n', 0) == Lex(rest)
  {
    var t := "\n" + rest;
    OneStep(t, 0);
    assert CharAt(t, 1) == CharAt(rest, 0);
    SkipsOnward(t, '\n', 0);
    ShiftOnward("\n", rest, CharAt(rest, 0), 0);
  }

  /** Within a string a comment is never harmless. */
  lemma {:induction false} CommentInString(items: seq<Item>, text: string, body: string, rest: string)
    requires Legible(items) && Clean(text) && OneLine(body) && NUL !in rest
    requires ReadsThrough(Lex(Render(items) + "\"" + text + "\n" + rest))
    ensures var a := Render(items) + "\"" + text; Lex(a + Comment(body) + rest) != Lex(a + "\n" + rest)
  {
    hide GhpermLexer.Lex, ReadsThrough, StandsAt, BeforeBreak, Render, TokensOf;
    WrittenStands(items);
    QuoteFurther(Render(items), text, TokensOf(items), PlaceAfter(items));
    StandsMeets(Render(items) + "\"" + text);
    CommentHarmlessIff(Render(items) + "\"" + text, body, rest);
  }

  /** A file cannot start with a comment. */
  lemma {:induction false} CommentFirstIsAnError(s: string)
    ensures Lex("#" + s) == Broken(UnexpectedToken)
  {
    assert CharAt("#" + s, 0) == '#';
    assert SkipSpace("#" + s, 0) == 0;
  }

  // ---------- some files ----------

  lemma {:induction false} LastLetter(t: string, i: nat)
    requires i + 1 == |t| && IsWordChar(t[i])
    ensures Onward(t, t[i], i) == More(Identifier([t[i]]), End)
  {
    assert NextChar(t, i) == Scan(NUL, i + 1);
    LetterAt(t, i);
    SpaceRunsOut(t, NUL, i + 1);
  }

  /** The same comment takes the `a` of the next line behind a blank, and not behind a word. */
  lemma {:induction false} BehindBlankAndBehindWord()
    ensures Lex(" #c\nab") == More(Identifier("b"), End)
    ensures Lex("w#c\na") == More(Identifier("w"), More(Identifier("a"), End))
  {
    BehindBlank();
    BehindWord();
  }

  lemma {:induction false} BehindBlank()
    ensures Lex(" #c\nab") == More(Identifier("b"), End)
  {
    var t := " #c\nab";
    assert NextChar(t, 0) == Scan('\n', 4) && NextChar(t, 4) == Scan('b', 5);
    hide GhpermLexer.NextChar;
    SkipsOnward(t, ' ', 0);
    SkipsOnward(t, '\n', 4);
    LastLetter(t, 5);
  }

  lemma {:induction false} BehindWord()
    ensures Lex("w#c\na") == More(Identifier("w"), More(Identifier("a"), End))
  {
    var t := "w#c\na";
    assert NextChar(t, 0) == Scan('\n', 4);
    hide GhpermLexer.NextChar;
    LetterAt(t, 0);
    LastLetter(t, 4);
  }

  /** Behind a word, with another comment in the next line: without the first comment, the second
      takes the `x`. */
  lemma {:induction false} TwoCommentLines()
    ensures Lex("w#a\n#b\nx y") == More(Identifier("w"), More(Identifier("x"), More(Identifier("y"), End)))
    ensures Lex("w\n#b\nx y") == More(Identifier("w"), More(Identifier("y"), End))
  {
    WithBoth();
    WithSecond();
  }

  lemma {:induction false} WithBoth()
    ensures Lex("w#a\n#b\nx y") == More(Identifier("w"), More(Identifier("x"), More(Identifier("y"), End)))
  {
    var t := "w#a\n#b\nx y";
    assert NextChar(t, 6) == Scan('x', 7);
    assert NextChar(t, 3) == Scan('\n', 7);
    assert NextChar(t, 0) == Scan('\n', 7);
    assert NextChar(t, 7) == Scan(' ', 8) && NextChar(t, 8) == Scan('y', 9);
    hide GhpermLexer.NextChar;
    LetterAt(t, 0);
    LetterAt(t, 7);
    SkipsOnward(t, ' ', 8);
    LastLetter(t, 9);
  }

  lemma {:induction false} WithSecond()
    ensures Lex("w\n#b\nx y") == More(Identifier("w"), More(Identifier("y"), End))
  {
    var t := "w\n#b\nx y";
    assert NextChar(t, 0) == Scan('\n', 1) && NextChar(t, 4) == Scan('x', 5);
    assert NextChar(t, 1) == Scan('\n', 5);
    assert NextChar(t, 5) == Scan(' ', 6) && NextChar(t, 6) == Scan('y', 7);
    hide GhpermLexer.NextChar;
    LetterAt(t, 0);
    SkipsOnward(t, '\n', 1);
    SkipsOnward(t, '\n', 5);
    SkipsOnward(t, ' ', 6);
    LastLetter(t, 7);
  }

  /** The second of two comment lines is skipped in the step that the first one makes the scanner
      take. Behind a blank it takes a character, too; behind a word it does not. */
  lemma {:induction false} SecondCommentLine()
    ensures Lex(" #a\n#b\nx y") == More(Identifier("y"), End)
    ensures Lex(" #a\n\nx y") == More(Identifier("x"), More(Identifier("y"), End))
    ensures Lex("w#a\n#b\nx y") == Lex("w#a\n\nx y")
  {
    BlankWithBoth();
    BlankWithFirst();
    WithBoth();
    WithFirst();
  }

  lemma {:induction false} BlankWithBoth()
    ensures Lex(" #a\n#b\nx y") == More(Identifier("y"), End)
  {
    var t := " #a\n#b\nx y";
    assert NextChar(t, 6) == Scan('x', 7);
    assert NextChar(t, 3) == Scan('\n', 7);
    assert NextChar(t, 0) == Scan('\n', 7);
    assert NextChar(t, 7) == Scan(' ', 8) && NextChar(t, 8) == Scan('y', 9);
    hide GhpermLexer.NextChar;
    SkipsOnward(t, ' ', 0);
    SkipsOnward(t, '\n', 7);
    SkipsOnward(t, ' ', 8);
    LastLetter(t, 9);
  }

  lemma {:induction false} BlankWithFirst()
    ensures Lex(" #a\n\nx y") == More(Identifier("x"), More(Identifier("y"), End))
  {
    var t := " #a\n\nx y";
    assert NextChar(t, 3) == Scan('\n', 4);
    assert NextChar(t, 0) == Scan('\n', 4);
    assert NextChar(t, 4) == Scan('x', 5) && NextChar(t, 5) == Scan(' ', 6) && NextChar(t, 6) == Scan('y', 7);
    hide GhpermLexer.NextChar;
    SkipsOnward(t, ' ', 0);
    SkipsOnward(t, '\n', 4);
    LetterAt(t, 5);
    SkipsOnward(t, ' ', 6);
    LastLetter(t, 7);
  }

  lemma {:induction false} WithFirst()
    ensures Lex("w#a\n\nx y") == More(Identifier("w"), More(Identifier("x"), More(Identifier("y"), End)))
  {
    var t := "w#a\n\nx y";
    assert NextChar(t, 3) == Scan('\n', 4);
    assert NextChar(t, 0) == Scan('\n', 4);
    assert NextChar(t, 4) == Scan('x', 5) && NextChar(t, 5) == Scan(' ', 6) && NextChar(t, 6) == Scan('y', 7);
    hide GhpermLexer.NextChar;
    LetterAt(t, 0);
    SkipsOnward(t, '\n', 4);
    LetterAt(t, 5);
    SkipsOnward(t, ' ', 6);
    LastLetter(t, 7);
  }

  /** With more comments than one, what a comment takes and what its absence makes the next one
      take can be the same by chance: here the `a` read instead is the `a` that was taken. */
  lemma {:induction false} MissedByChanceOnly(x: char)
    requires IsWordChar(x)
    ensures Lex("w###\na #c\n" + [x] + " b") == Lex("w\na #c\n" + [x] + " b") <==> x == 'a'
  {
    ChanceWith(x);
    ChanceWithout(x);
    assert [x] == "a" <==> x == 'a';
  }

  lemma {:induction false} ChanceWith(x: char)
    requires IsWordChar(x)
    ensures Lex("w###\na #c\n" + [x] + " b") == More(Identifier("w"), More(Identifier([x]), More(Identifier("b"), End)))
  {
    var t := "w###\na #c\n" + [x] + " b";
    ThreeSteps(x);
    assert NextChar(t, 10) == Scan(' ', 11) && NextChar(t, 11) == Scan('b', 12);
    hide GhpermLexer.NextChar;
    LetterAt(t, 0);
    LetterAt(t, 10);
    SkipsOnward(t, ' ', 11);
    LastLetter(t, 12);
  }

  /** The third of the steps that the first comment takes is over the second comment. */
  lemma {:induction false} ThreeSteps(x: char)
    requires IsWordChar(x)
    ensures NextChar("w###\na #c\n" + [x] + " b", 0) == Scan('\n', 10)
  {
    var t := "w###\na #c\n" + [x] + " b";
    hide GhpermLexer.NextChar, LineEnd, Hashes, Steps;
    SingleSteps(t, x);
    StepsOne(t, 9);
    CommentSkips(t, 6, 9);
    StepsThree(t, 4);
    CommentSkips(t, 0, 4);
  }

  lemma {:induction false} StepsThree(t: string, i: nat)
    ensures Steps(t, i, 3) == NextChar(t, NextChar(t, NextChar(t, i).i).i).i
  {
    StepsOne(t, i);
    assert Steps(t, i, 2) == NextChar(t, Steps(t, i, 1)).i;
  }

  lemma {:induction false} SingleSteps(t: string, x: char)
    requires t == "w###\na #c\n" + [x] + " b" && IsWordChar(x)
    ensures NextChar(t, 4) == Scan('a', 5) && NextChar(t, 5) == Scan(' ', 6) && NextChar(t, 9) == Scan(x, 10)
    ensures LineEnd(t, 1, 4) && Hashes(t, 1, 4) == 3 && LineEnd(t, 7, 9) && Hashes(t, 7, 9) == 1
  {
  }

  lemma {:induction false} ChanceWithout(x: char)
    requires IsWordChar(x)
    ensures Lex("w\na #c\n" + [x] + " b") == More(Identifier("w"), More(Identifier("a"), More(Identifier("b"), End)))
  {
    var t := "w\na #c\n" + [x] + " b";
    assert NextChar(t, 0) == Scan('\n', 1) && NextChar(t, 1) == Scan('a', 2) && NextChar(t, 2) == Scan(' ', 3);
    assert NextChar(t, 6) == Scan(x, 7);
    StepsOne(t, 6);
    CommentSkips(t, 3, 6);
    assert Hashes(t, 4, 6) == 1;
    assert NextChar(t, 7) == Scan(' ', 8) && NextChar(t, 8) == Scan('b', 9);
    hide GhpermLexer.NextChar;
    LetterAt(t, 0);
    SkipsOnward(t, '\n', 1);
    LetterAt(t, 2);
    SkipsOnward(t, ' ', 3);
    SkipsOnward(t, '\n', 7);
    SkipsOnward(t, ' ', 8);
    LastLetter(t, 9);
  }
}
