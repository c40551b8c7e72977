/** Where a line break finds the tokenizer behind written GHPERM text (src/ghost/perms/parser.c, lines 35-266). */
module GhpermPlaces {
  import opened Basics
  import opened GhpermLexer
  import opened GhpermText
  import opened GhpermComments

  // ---------- one character more ----------

  /** The tokenizer comes to the last character, and sees it. */
  predicate Arrives(a: string) {
    a == "" || (StandsAt(a).Some? && StandsAt(a).value.c == a[|a| - 1])
  }

  /** `BeforeBreak`, for a file that starts with the break too. */
  function BreakAt(a: string): Left
    requires Arrives(a)
  {
    if a == "" then Left([], White) else BeforeBreak(a)
  }

  lemma {:induction false} ReachOn(data: string, mode: Mode, c: char, i: nat, j: nat)
    requires Reach(data, mode, c, i, j).Some? && NextChar(data, j).i == j + 1
    ensures Reach(data, mode, c, i, j + 1) ==
            var st := Reach(data, mode, c, i, j).value;
            match Pass(data, st.mode, st.c, j)
            case Goes(ts, mode', n) => Some(Standing(st.tokens + ts, mode', n.c))
            case Stops(_, _) => None
    decreases j - i
  {
    var p := Pass(data, mode, c, i);
    if i == j {
      if p.Goes? {
        assert Reach(data, p.mode, p.next.c, j + 1, j + 1) == Some(Standing([], p.mode, p.next.c));
        assert p.tokens + [] == p.tokens && [] + p.tokens == p.tokens;
      }
    } else {
      ReachOn(data, p.mode, p.next.c, p.next.i, j);
      var st := Reach(data, p.mode, p.next.c, p.next.i, j).value;
      var q := Pass(data, st.mode, st.c, j);
      assert q.Goes? ==> (p.tokens + st.tokens) + q.tokens == p.tokens + (st.tokens + q.tokens);
    }
  }

  lemma {:induction false} StandsFurther(a: string, x: char)
    requires a != "" && x != '#' && StandsAt(a).Some?
    ensures NextChar(a + [x], |a| - 1) == Scan(x, |a|)
    ensures var st := StandsAt(a).value;
            StandsAt(a + [x]) ==
            match Pass(a + [x], st.mode, st.c, |a| - 1)
            case Goes(ts, mode, n) => Some(Standing(st.tokens + ts, mode, n.c))
            case Stops(_, _) => None
  {
    var data := a + [x];
    assert NextChar(data, |a| - 1) == Scan(x, |a|);
    assert CharAt(data, 0) == CharAt(a, 0);
    ReachPrefix(a, [x], Outside, CharAt(a, 0), 0);
    hide Reach, Pass;
    ReachOn(data, Outside, CharAt(a, 0), 0, |a| - 1);
  }

  /** What a character does that does not run a word on. */
  function Extend(l: Left, x: char): Left {
    match l.place
    case White | Behind =>
      var l' := if IsSpace(x) then Left([], White) else LeaveOutside(x);
      l'.(tokens := l.tokens + l'.tokens)
    case Inside(s) =>
      if x == '"' then Left(l.tokens + [Text(s)], Behind)
      else if x == '\\' then Left(l.tokens, Ended(Broken(UnterminatedString)))
      else Left(l.tokens, Inside(s + [x]))
    case Ended(_) => l
  }

  lemma {:induction false} BreakFurther(a: string, x: char)
    requires Arrives(a) && x != '#' && x != NUL && !BreakAt(a).place.Ended?
    requires a != "" && IsWordChar(a[|a| - 1]) && IsWordChar(x) ==> !BreakAt(a).place.Behind?
    ensures Arrives(a + [x]) && BreakAt(a + [x]) == Extend(BreakAt(a), x)
  {
    if a == "" {
      assert "" + [x] == [x] && StandsAt([x]) == Some(Standing([], Outside, x));
    } else {
      var data, last := a + [x], a[|a| - 1];
      StandsFurther(a, x);
      assert CharAt(data, |a| - 1) == last && CharAt(data, |a|) == x && data[|data| - 1] == x;
      hide StandsAt, GhpermLexer.NextChar;
    }
  }

  lemma {:induction false} WordFurther(a: string, x: char, tokens: seq<Token>, w: string)
    requires Arrives(a) && a != "" && IsWordChar(a[|a| - 1]) && IsWordChar(x)
    requires BreakAt(a) == Left(tokens + [Identifier(w)], Behind)
    ensures Arrives(a + [x]) && BreakAt(a + [x]) == Left(tokens + [Identifier(w + [x])], Behind)
  {
    var data, last := a + [x], a[|a| - 1];
    StandsFurther(a, x);
    assert CharAt(data, |a| - 1) == last && CharAt(data, |a|) == x && data[|data| - 1] == x;
    var st := StandsAt(a).value;
    hide StandsAt, GhpermLexer.NextChar;
    if st.mode.InWord? {
      assert st.tokens + [Identifier(st.mode.word + [last])] == tokens + [Identifier(w)];
      Snoc(st.tokens, Identifier(st.mode.word + [last]), tokens, Identifier(w));
    } else {
      assert st.tokens + [Identifier([last])] == tokens + [Identifier(w)];
      Snoc(st.tokens, Identifier([last]), tokens, Identifier(w));
    }
  }

  // ---------- one item more ----------

  predicate PlaceIs(a: string, tokens: seq<Token>, place: Place) {
    Arrives(a) && BreakAt(a) == Left(tokens, place)
  }

  lemma {:induction false} SpaceFurther(a: string, text: string, tokens: seq<Token>, place: Place)
    requires PlaceIs(a, tokens, place) && (place.White? || place.Behind?) && text != ""
             && forall c | c in text :: IsSpace(c)
    ensures PlaceIs(a + text, tokens, White)
    decreases |text|
  {
    assert text[0] in text;
    BreakFurther(a, text[0]);
    assert tokens + [] == tokens;
    var a' := a + [text[0]];
    assert a + text == a' + text[1..];
    if |text| == 1 {
      assert a + text == a';
    } else {
      SpaceFurther(a', text[1..], tokens, White);
    }
  }

  lemma {:induction false} WordRunsOn(a: string, word: string, tokens: seq<Token>, w: string)
    requires PlaceIs(a, tokens + [Identifier(w)], Behind) && a != "" && IsWordChar(a[|a| - 1])
             && forall c | c in word :: IsWordChar(c)
    ensures PlaceIs(a + word, tokens + [Identifier(w + word)], Behind) && IsWordChar((a + word)[|a + word| - 1])
    decreases |word|
  {
    if word == "" {
      assert a + word == a && w + word == w;
    } else {
      WordFurther(a, word[0], tokens, w);
      var a' := a + [word[0]];
      WordRunsOn(a', word[1..], tokens, w + [word[0]]);
      assert a' + word[1..] == a + word && (w + [word[0]]) + word[1..] == w + word;
    }
  }

  lemma {:induction false} TextRunsOn(a: string, s: string, tokens: seq<Token>, text: string)
    requires PlaceIs(a, tokens, Inside(text)) && Clean(s)
    ensures PlaceIs(a + s, tokens, Inside(text + s))
    decreases |s|
  {
    if s == "" {
      assert a + s == a && text + s == text;
    } else {
      assert s[0] in s;
      BreakFurther(a, s[0]);
      var a' := a + [s[0]];
      TextRunsOn(a', s[1..], tokens, text + [s[0]]);
      assert a' + s[1..] == a + s && (text + [s[0]]) + s[1..] == text + s;
    }
  }

  /** A quote in front of clean text: the break finds the tokenizer inside. */
  lemma {:induction false} QuoteFurther(a: string, s: string, tokens: seq<Token>, place: Place)
    requires PlaceIs(a, tokens, place) && (place.White? || place.Behind?) && Clean(s)
    ensures PlaceIs(a + "\"" + s, tokens, Inside(s))
  {
    BreakFurther(a, '"');
    assert a + "\"" == a + ['"'] && tokens + [] == tokens && "" + s == s;
    TextRunsOn(a + "\"", s, tokens, "");
  }

  /** Where an item leaves the tokenizer. */
  function PlaceBehind(item: Item): Place {
    if item.Space? then White else Behind
  }

  /** Behind `a` nothing has begun that `item` would be part of. */
  predicate Ready(a: string, tokens: seq<Token>, item: Item) {
    || PlaceIs(a, tokens, White)
    || (PlaceIs(a, tokens, Behind) && (a != "" && IsWordChar(a[|a| - 1]) ==> !item.Word?))
  }

  lemma {:induction false} FirstLetter(a: string, x: char, tokens: seq<Token>)
    requires IsWordChar(x)
    requires PlaceIs(a, tokens, White) || (PlaceIs(a, tokens, Behind) && (a != "" ==> !IsWordChar(a[|a| - 1])))
    ensures PlaceIs(a + [x], tokens + [Identifier([x])], Behind)
  {
    BreakFurther(a, x);
    hide Arrives, BreakAt;
  }

  lemma {:induction false} WordItem(a: string, text: string, tokens: seq<Token>)
    requires Ready(a, tokens, Word(text)) && IsWord(text)
    ensures PlaceIs(a + text, tokens + [Identifier(text)], Behind)
  {
    assert text[0] in text;
    FirstLetter(a, text[0], tokens);
    hide Arrives, BreakAt, PlaceIs;
    WordRunsOn(a + [text[0]], text[1..], tokens, [text[0]]);
    assert (a + [text[0]]) + text[1..] == a + text && [text[0]] + text[1..] == text;
  }

  lemma {:induction false} QuotedItem(a: string, text: string, tokens: seq<Token>)
    requires Ready(a, tokens, Quoted(text)) && Clean(text)
    ensures PlaceIs(a + ("\"" + text + "\""), tokens + [Text(text)], Behind)
  {
    hide Arrives, BreakAt;
    QuoteFurther(a, text, tokens, if PlaceIs(a, tokens, White) then White else Behind);
    BreakFurther(a + "\"" + text, '"');
    assert (a + "\"" + text) + ['"'] == a + ("\"" + text + "\"");
  }

  lemma {:induction false} ItemFurther(a: string, item: Item, tokens: seq<Token>)
    requires Ready(a, tokens, item) && WellFormed(item) && Spell(item) != ""
    ensures PlaceIs(a + Spell(item), tokens + TokenOf(item), PlaceBehind(item))
  {
    hide Arrives, BreakAt;
    match item
    case Space(text) =>
      SpaceFurther(a, text, tokens, if PlaceIs(a, tokens, White) then White else Behind);
      assert tokens + [] == tokens;
    case Word(text) => WordItem(a, text, tokens);
    case Quoted(text) => QuotedItem(a, text, tokens);
    case Open => BreakFurther(a, '{');
    case Close => BreakFurther(a, '}');
  }

  lemma {:induction false} SpellEnds(a: string, item: Item)
    requires WellFormed(item) && Spell(item) != ""
    ensures IsWordChar((a + Spell(item))[|a + Spell(item)| - 1]) ==> item.Word?
  {
    var s := Spell(item);
    assert (a + s)[|a + s| - 1] == s[|s| - 1];
    if item.Space? {
      assert s[|s| - 1] in s;
    }
  }

  /** Where written text leaves the tokenizer: in white space if it ends in some, and otherwise
      behind a token. */
  function PlaceAfter(items: seq<Item>): Place {
    if items == [] then White
    else
      var n := |items| - 1;
      if Spell(items[n]) == "" then PlaceAfter(items[..n]) else PlaceBehind(items[n])
  }

  predicate EndsInWord(items: seq<Item>) {
    items != [] && items[|items| - 1].Word?
  }

  /** Written text is read as its tokens, and only a word at its end could run on. */
  predicate Settled(items: seq<Item>) {
    var a, place := Render(items), PlaceAfter(items);
    && PlaceIs(a, TokensOf(items), place)
    && (place.White? || place.Behind?)
    && (a != "" && IsWordChar(a[|a| - 1]) && place.Behind? ==> EndsInWord(items))
  }

  lemma {:induction false} WrittenStands(items: seq<Item>)
    requires Legible(items)
    ensures Settled(items)
    decreases |items|
  {
    if items == [] {
      assert Render([]) == "" && TokensOf([]) == [];
    } else {
      var n := |items| - 1;
      assert items == items[..n] + [items[n]];
      WrittenStands(items[..n]);
      hide Settled;
      OneMore(items[..n], items[n]);
    }
  }

  lemma {:induction false} OneMore(init: seq<Item>, item: Item)
    requires Legible(init + [item]) && Settled(init)
    ensures Settled(init + [item])
  {
    RenderConcat(init, [item]);
    TokensOfConcat(init, [item]);
    OneItem(item);
    AfterOneMore(init, item);
    assert (init + [item])[|init|] == item;
    hide Arrives, BreakAt, Render, TokensOf, PlaceIs, PlaceAfter;
    if Spell(item) == "" {
      assert Render(init + [item]) == Render(init) && TokensOf(init + [item]) == TokensOf(init);
      if EndsInWord(init) {
        NotAfterWord(init, item);
      }
    } else {
      ReadyFor(init, item);
      ItemFurther(Render(init), item, TokensOf(init));
      SpellEnds(Render(init), item);
    }
  }

  lemma {:induction false} AfterOneMore(init: seq<Item>, item: Item)
    ensures PlaceAfter(init + [item]) == if Spell(item) == "" then PlaceAfter(init) else PlaceBehind(item)
  {
    assert (init + [item])[..|init|] == init;
  }

  lemma {:induction false} OneItem(item: Item)
    ensures Render([item]) == Spell(item) && TokensOf([item]) == TokenOf(item)
  {
    assert Render([]) == "" && TokensOf([]) == [];
  }

  lemma {:induction false} NotAfterWord(init: seq<Item>, item: Item)
    requires Legible(init + [item]) && EndsInWord(init)
    ensures Separates(item) && Spell(item) != "" && !item.Word?
  {
    var items, n := init + [item], |init|;
    assert items[n] == item && items[n - 1].Word? && Separates(items[n - 1 + 1]);
  }

  lemma {:induction false} ReadyFor(init: seq<Item>, item: Item)
    requires Legible(init + [item]) && Settled(init)
    ensures Ready(Render(init), TokensOf(init), item)
  {
    hide PlaceIs, Render, TokensOf, Legible, PlaceAfter;
    if EndsInWord(init) {
      NotAfterWord(init, item);
    }
  }
}
