/** The macro processor (examples/prep/prep.c). */
module Prep {
  import opened PrepTokenizer

  /** What processing does: print the text of a token, print a `#`, or run a macro. */
  datatype Event = Literal(text: string) | Hash | Macro(name: string, param: string)

  /** A token buffer as the tokenizer leaves it. */
  ghost predicate Buffer(buf: string, ts: seq<Token>) {
    EndsOnce(ts) && Contiguous(ts) && Within(buf, ts) && forall k | 0 <= k < |ts| :: Pure(buf, ts[k])
  }

  /** A macro call starts here: marker, name and parenthesis. */
  predicate Opens(ts: seq<Token>, i: nat) {
    i + 2 < |ts| && ts[i].kind.Marker? && ts[i + 1].kind.Text? && ts[i + 2].kind.LParen?
  }

  /** Index of the parenthesis that brings the level down to 0, or the number of tokens. */
  function Close(ts: seq<Token>, i: nat, level: nat): (j: nat)
    requires i <= |ts| && level > 0
    ensures i <= j <= |ts| && (j < |ts| ==> ts[j].kind.RParen?)
    decreases |ts| - i
  {
    if i == |ts| || ts[i].kind.Eof? then |ts|
    else if ts[i].kind.LParen? then Close(ts, i + 1, level + 1)
    else if ts[i].kind.RParen? then if level == 1 then i else Close(ts, i + 1, level - 1)
    else Close(ts, i + 1, level)
  }

  lemma {:induction false} StartsGrow(ts: seq<Token>, i: nat, j: nat)
    requires Contiguous(ts) && i < j < |ts|
    ensures ts[i].start + ts[i].len <= ts[j].start
    decreases j - i
  {
    if i + 1 < j {
      StartsGrow(ts, i, j - 1);
    }
    assert MeetsNext(ts, j - 1);
  }

  /** A parameter starts behind its parenthesis and ends before the closing one. */
  lemma {:induction false} SpanInside(buf: string, ts: seq<Token>, open: nat, close: nat)
    requires Buffer(buf, ts) && open < close < |ts| && ts[open].kind.LParen?
    ensures ts[open].start + 1 <= ts[close].start <= |buf|
  {
    assert Pure(buf, ts[open]);
    StartsGrow(ts, open, close);
  }

  // ---------- the grammar ----------

  /** What a text means: `##` is a `#`; `#name(...)` with balanced parentheses is a
      macro call; any other `#` is a `#`, and the text behind it is read as usual. */
  function Meaning(buf: string, ts: seq<Token>, i: nat): seq<Event>
    requires i <= |ts| && Within(buf, ts)
    decreases |ts| - i
  {
    if i == |ts| then []
    else if !ts[i].kind.Marker? then [Literal(TextOf(buf, ts[i]))] + Meaning(buf, ts, i + 1)
    else if i + 1 < |ts| && ts[i + 1].kind.Marker? then [Hash] + Meaning(buf, ts, i + 2)
    else if Opens(ts, i) && Close(ts, i + 3, 1) < |ts| then
      var j := Close(ts, i + 3, 1);
      [Macro(TextOf(buf, ts[i + 1]), Joined(buf, ts[i + 3..j]))] + Meaning(buf, ts, j + 1)
    else [Hash] + Meaning(buf, ts, i + 1)
  }

  /** What processing does, event by event: after a macro that is not closed it goes on
      two tokens before the end. */
  function Trace(buf: string, ts: seq<Token>, i: nat): seq<Event>
    requires i <= |ts| && Buffer(buf, ts)
    decreases |ts| - i
  {
    if i == |ts| then []
    else if !ts[i].kind.Marker? then [Literal(TextOf(buf, ts[i]))] + Trace(buf, ts, i + 1)
    else if i + 1 < |ts| && ts[i + 1].kind.Marker? then [Hash] + Trace(buf, ts, i + 2)
    else if Opens(ts, i) then
      var j := Close(ts, i + 3, 1);
      if j < |ts| then
        SpanInside(buf, ts, i + 2, j);
        [Macro(TextOf(buf, ts[i + 1]), buf[ts[i + 2].start + 1..ts[j].start])] + Trace(buf, ts, j + 1)
      else [Hash] + Trace(buf, ts, |ts| - 3)
    else [Hash] + Trace(buf, ts, i + 1)
  }

  lemma {:induction false} SubTokens(buf: string, ts: seq<Token>, a: nat, b: nat)
    requires Contiguous(ts) && Within(buf, ts) && a <= b <= |ts|
    ensures Contiguous(ts[a..b]) && Within(buf, ts[a..b])
  {
    forall k: nat | k < |ts[a..b]| - 1 ensures MeetsNext(ts[a..b], k) {
      assert MeetsNext(ts, a + k);
    }
  }

  lemma {:induction false} TokenMeets(buf: string, ts: seq<Token>, k: nat)
    requires Buffer(buf, ts) && k + 1 < |ts|
    ensures ts[k + 1].start == ts[k].start + ts[k].len && ts[k + 1].start <= |buf|
            && (ts[k].kind.LParen? ==> ts[k].len == 1)
  {
    assert MeetsNext(ts, k) && Pure(buf, ts[k]);
  }

  /** The parameter that is cut out of the buffer is the text of the tokens in between. */
  lemma {:induction false} ParamIsItsTokens(buf: string, ts: seq<Token>, open: nat, close: nat)
    requires Buffer(buf, ts) && open < close < |ts| && ts[open].kind.LParen?
    ensures ts[open].start + 1 <= ts[close].start <= |buf|
    ensures Within(buf, ts[open + 1..close]) && buf[ts[open].start + 1..ts[close].start] ==
            Joined(buf, ts[open + 1..close])
  {
    hide *;
    var inner := ts[open + 1..close];
    SubTokens(buf, ts, open + 1, close) by { BufferMeans(buf, ts); }
    SpanInside(buf, ts, open, close);
    TokenMeets(buf, ts, open);
    if open + 1 == close {
      JoinedNothing(buf);
      assert inner == [];
    } else {
      TokenMeets(buf, ts, close - 1);
      assert inner[0] == ts[open + 1] && inner[|inner| - 1] == ts[close - 1];
      JoinedIsSlice(buf, inner);
      assert inner[0].start == ts[open].start + 1 && inner[|inner| - 1].start + inner[|inner| - 1].len ==
        ts[close].start;
    }
  }

  lemma {:induction false} BufferMeans(buf: string, ts: seq<Token>)
    requires Buffer(buf, ts)
    ensures Contiguous(ts) && Within(buf, ts)
  {
  }

  lemma {:induction false} JoinedNothing(buf: string)
    ensures Within(buf, []) && Joined(buf, []) == ""
  {
  }

  // ---------- when the trace has the meaning of the text ----------

  /** Index of the first macro call that is opened but not closed, or the number of tokens. */
  function FirstOpen(ts: seq<Token>, i: nat): (h: nat)
    requires i <= |ts|
    ensures i <= h <= |ts| && (h < |ts| ==> Opens(ts, h) && Close(ts, h + 3, 1) == |ts|)
    decreases |ts| - i
  {
    if i == |ts| then |ts|
    else if !ts[i].kind.Marker? then FirstOpen(ts, i + 1)
    else if i + 1 < |ts| && ts[i + 1].kind.Marker? then FirstOpen(ts, i + 2)
    else if Opens(ts, i) then
      var j := Close(ts, i + 3, 1);
      if j < |ts| then FirstOpen(ts, j + 1) else i
    else FirstOpen(ts, i + 1)
  }

  /** Nothing can be opened in the last three tokens. */
  lemma {:induction false} TailHasMeaning(buf: string, ts: seq<Token>, i: nat)
    requires Buffer(buf, ts) && |ts| <= i + 3 && i <= |ts|
    ensures Trace(buf, ts, i) == Meaning(buf, ts, i) && |Trace(buf, ts, i)| <= |ts| - i
    decreases |ts| - i
  {
    if i < |ts| {
      TailHasMeaning(buf, ts, i + 1);
      if i + 2 <= |ts| {
        TailHasMeaning(buf, ts, i + 2);
      }
      assert i + 2 < |ts| ==> ts[i + 2].kind.Eof?;
    }
  }

  /** From any place, each of the tokens up to the end leaves something in the meaning. */
  lemma {:induction false} MeaningLength(buf: string, ts: seq<Token>, i: nat)
    requires Buffer(buf, ts) && i < |ts|
    ensures |Meaning(buf, ts, i)| >= if i + 1 < |ts| then 2 else 1
    decreases |ts| - i
  {
  }

  /** The first event is the same for both, unless a macro is left open here. */
  lemma {:induction false} SameStep(buf: string, ts: seq<Token>, i: nat) returns (e: Event, next: nat)
    requires Buffer(buf, ts) && i < |ts| && (Opens(ts, i) ==> Close(ts, i + 3, 1) < |ts|)
    ensures i < next <= |ts|
    ensures Trace(buf, ts, i) == [e] + Trace(buf, ts, next) && Meaning(buf, ts, i) == [e] + Meaning(buf, ts, next)
    ensures FirstOpen(ts, i) == FirstOpen(ts, next)
  {
    if Opens(ts, i) {
      e, next := SameMacro(buf, ts, i);
    } else {
      hide Close, Opens, Contiguous, EndsOnce, Pure;
      if !ts[i].kind.Marker? {
        e, next := Literal(TextOf(buf, ts[i])), i + 1;
      } else if i + 1 < |ts| && ts[i + 1].kind.Marker? {
        e, next := Hash, i + 2;
      } else {
        e, next := Hash, i + 1;
      }
    }
  }

  lemma {:induction false} SameMacro(buf: string, ts: seq<Token>, i: nat) returns (e: Event, next: nat)
    requires Buffer(buf, ts) && Opens(ts, i) && Close(ts, i + 3, 1) < |ts|
    ensures next == Close(ts, i + 3, 1) + 1
    ensures Trace(buf, ts, i) == [e] + Trace(buf, ts, next) && Meaning(buf, ts, i) == [e] + Meaning(buf, ts, next)
    ensures FirstOpen(ts, i) == FirstOpen(ts, next)
  {
    hide Close, Buffer, Contiguous, EndsOnce, Pure, Within, Joined, TextOf;
    BufferMeans(buf, ts);
    var j := Close(ts, i + 3, 1);
    ParamIsItsTokens(buf, ts, i + 2, j);
    e, next := Macro(TextOf(buf, ts[i + 1]), Joined(buf, ts[i + 3..j])), j + 1;
  }

  /** Processing gives a text its meaning if and only if no macro is left open, or the
      first one left open has nothing behind its parenthesis. */
  lemma {:induction false} TraceIsMeaningIff(buf: string, ts: seq<Token>, i: nat)
    requires Buffer(buf, ts) && i <= |ts|
    ensures Trace(buf, ts, i) == Meaning(buf, ts, i) <==> FirstOpen(ts, i) == |ts| || FirstOpen(ts, i) + 4 == |ts|
    decreases |ts| - i
  {
    if i < |ts| {
      if Opens(ts, i) && Close(ts, i + 3, 1) == |ts| {
        OpenMacro(buf, ts, i);
        assert FirstOpen(ts, i) == i;
      } else {
        hide Trace, Meaning, FirstOpen, Close, Opens;
        var e, next := SameStep(buf, ts, i);
        TraceIsMeaningIff(buf, ts, next);
        SameHead(e, Trace(buf, ts, next), Meaning(buf, ts, next));
      }
    }
  }

  lemma {:induction false} SameHead(e: Event, a: seq<Event>, b: seq<Event>)
    ensures [e] + a == [e] + b <==> a == b
  {
    if [e] + a == [e] + b {
      assert a == ([e] + a)[1..] == ([e] + b)[1..] == b;
    }
  }

  lemma {:induction false} OpenMacro(buf: string, ts: seq<Token>, i: nat)
    requires Buffer(buf, ts) && Opens(ts, i) && Close(ts, i + 3, 1) == |ts|
    ensures i + 4 <= |ts|
    ensures Trace(buf, ts, i) == Meaning(buf, ts, i) <==> i + 4 == |ts|
  {
    hide *;
    OpensBeforeEnd(buf, ts, i);
    BufferMeans(buf, ts);
    OpenSteps(buf, ts, i);
    var rest, meant := Trace(buf, ts, |ts| - 3), Meaning(buf, ts, i + 1);
    TailHasMeaning(buf, ts, |ts| - 3);
    if i + 4 < |ts| {
      MeaningLength(buf, ts, i + 3);
      assert |rest| < |meant|;
      DifferentLengths(Hash, rest, meant);
    } else {
      assert rest == meant;
    }
  }

  lemma {:induction false} DifferentLengths(e: Event, a: seq<Event>, b: seq<Event>)
    requires |a| != |b|
    ensures [e] + a != [e] + b
  {
  }

  lemma {:induction false} OpensBeforeEnd(buf: string, ts: seq<Token>, i: nat)
    requires Buffer(buf, ts) && Opens(ts, i)
    ensures i + 3 < |ts|
  {
  }

  lemma {:induction false} OpenSteps(buf: string, ts: seq<Token>, i: nat)
    requires Buffer(buf, ts) && Opens(ts, i) && i + 3 < |ts| && Close(ts, i + 3, 1) == |ts|
    ensures Trace(buf, ts, i) == [Hash] + Trace(buf, ts, |ts| - 3)
            && Meaning(buf, ts, i) == [Hash] + Meaning(buf, ts, i + 1)
    ensures |Meaning(buf, ts, i + 1)| == 2 + |Meaning(buf, ts, i + 3)|
  {
  }

  /** The tokenizer makes such a buffer of every input. */
  lemma {:induction false} TokensMakeBuffer(buf: string)
    ensures Buffer(buf, Tokens(buf, 0))
  {
    TokensTokenize(buf, 0);
    TokensAreWithin(buf, 0);
  }

  // ---------- the state machine ----------

  datatype StateId = Normal | MacroName | MacroLParen | MacroParam

  class Fsm {
    const buf: string
    var id: StateId
    var name: Token
    var paramStart: nat
    var level: nat
    var out: seq<Event>

    constructor (buf: string)
      ensures this.buf == buf && id == Normal && level == 0 && out == []
    {
      this.buf, id, name, paramStart, level, out := buf, Normal, Token(Eof, 0, 0), 0, 0, [];
    }

    /** Where the machine is, and that it has printed all of the trace up to there. */
    ghost predicate Stands(ts: seq<Token>, i: nat, h: nat, whole: seq<Event>)
      reads this
      requires Buffer(buf, ts)
    {
      At(buf, ts, id, level, name, paramStart, i, h) && out + Trace(buf, ts, h) == whole
    }

    method ProcessNormal(token: Token, ghost ts: seq<Token>, ghost i: nat, ghost h: nat, ghost whole: seq<Event>)
      returns (back: nat, ghost h': nat)
      requires Buffer(buf, ts) && i < |ts| && token == ts[i] && id == Normal && Stands(ts, i, h, whole)
      modifies this`id, this`out
      ensures back == 0 && Stands(ts, i + 1, h', whole)
      ensures h' == (if id == Normal then i + 1 else i) && h == i
    {
      hide Trace, Buffer, At;
      AtMeans(buf, ts, id, level, name, paramStart, i, h);
      FromNormal(buf, ts, level, name, paramStart, i);
      if token.kind.Marker? {
        id := MacroName;
        return 0, i;
      } else {
        out := out + [Literal(TextOf(buf, token))];
        return 0, i + 1;
      }
    }

    method ProcessMacroName(token: Token, ghost ts: seq<Token>, ghost i: nat, ghost h: nat, ghost whole: seq<Event>)
      returns (back: nat, ghost h': nat)
      requires Buffer(buf, ts) && i < |ts| && token == ts[i] && id == MacroName && Stands(ts, i, h, whole)
      modifies this`id, this`out, this`name
      ensures back <= i && Stands(ts, i - back + 1, h', whole)
      ensures if id == Normal then h < h' else h' == h && back == 0
    {
      hide Trace, Buffer, At;
      AtMeans(buf, ts, id, level, name, paramStart, i, h);
      FromMacroName(buf, ts, level, name, paramStart, h);
      match token.kind {
        case Marker =>
          out := out + [Hash];
          id := Normal;
          return 0, i + 1;
        case Text =>
          name := token;
          id := MacroLParen;
          return 0, h;
        case _ =>
          out := out + [Hash];
          id := Normal;
          return 1, i;
      }
    }

    method ProcessMacroLParen(token: Token, ghost ts: seq<Token>, ghost i: nat, ghost h: nat, ghost whole: seq<Event>)
      returns (back: nat, ghost h': nat)
      requires Buffer(buf, ts) && i < |ts| && token == ts[i] && id == MacroLParen && Stands(ts, i, h, whole)
      modifies this`id, this`out, this`paramStart, this`level
      ensures back <= i && Stands(ts, i - back + 1, h', whole)
      ensures if id == Normal then h < h' else h' == h && back == 0
    {
      hide Trace, Buffer, At;
      AtMeans(buf, ts, id, level, name, paramStart, i, h);
      FromMacroLParen(buf, ts, level, name, paramStart, h);
      if token.kind.LParen? {
        paramStart := token.start + 1;
        level := level + 1;
        id := MacroParam;
        return 0, h;
      } else {
        out := out + [Hash];
        id := Normal;
        return 2, h + 1;
      }
    }

    method ProcessMacroParam(token: Token, ghost ts: seq<Token>, ghost i: nat, ghost h: nat, ghost whole: seq<Event>)
      returns (back: nat, ghost h': nat)
      requires Buffer(buf, ts) && i < |ts| && token == ts[i] && id == MacroParam && Stands(ts, i, h, whole)
      modifies this`id, this`out, this`level
      ensures back <= i && Stands(ts, i - back + 1, h', whole)
      ensures if id == Normal then h < h' else h' == h && back == 0
    {
      hide Trace, Buffer, At;
      AtMeans(buf, ts, id, level, name, paramStart, i, h);
      InParam(buf, ts, level, name, paramStart, i, h);
      match token.kind {
        case LParen =>
          FromMacroParam(buf, ts, level, name, paramStart, i, h);
          level := level + 1;
        case RParen =>
          if level == 1 {
            MacroEnds(buf, ts, name, paramStart, i, h);
          } else {
            FromMacroParam(buf, ts, level, name, paramStart, i, h);
          }
          level := level - 1;
          if level == 0 {
            out := out + [Macro(TextOf(buf, name), buf[paramStart..token.start])];
            level := 0;
            id := Normal;
            return 0, i + 1;
          }
        case Eof =>
          MacroLeftOpen(buf, ts, level, name, paramStart, i, h);
          out := out + [Hash];
          id := Normal;
          return 3, |ts| - 3;
        case _ =>
          FromMacroParam(buf, ts, level, name, paramStart, i, h);
      }
      return 0, h;
    }
  }

  /** Where the machine is before token `i`: `h` is the place of the marker it is working
      on, or `i` itself. A level that was left open can only stand in the last three
      tokens, where it is never looked at. */
  ghost predicate At(buf: string, ts: seq<Token>, id: StateId, level: nat, name: Token, paramStart: nat, i: nat, h: nat)
    requires Buffer(buf, ts)
  {
    h <= i <= |ts| &&
    match id
    case Normal => h == i && (level == 0 || |ts| <= i + 3)
    case MacroName => i == h + 1 && ts[h].kind.Marker? && i < |ts| && (level == 0 || |ts| <= h + 3)
    case MacroLParen => i == h + 2 && ts[h].kind.Marker? && ts[h + 1].kind.Text? && name == ts[h + 1] && i < |ts|
      && (level == 0 || |ts| <= h + 3)
    case MacroParam =>
      && h + 3 <= i < |ts| && Opens(ts, h) && name == ts[h + 1] && paramStart == ts[h + 2].start + 1
      && level > 0 && Close(ts, i, level) == Close(ts, h + 3, 1)
  }

  lemma {:induction false} FromNormal(buf: string, ts: seq<Token>, level: nat, name: Token, paramStart: nat, i: nat)
    requires Buffer(buf, ts) && At(buf, ts, Normal, level, name, paramStart, i, i) && i < |ts|
    ensures ts[i].start + ts[i].len <= |buf|
    ensures if ts[i].kind.Marker? then At(buf, ts, MacroName, level, name, paramStart, i + 1, i)
            else At(buf, ts, Normal, level, name, paramStart, i + 1, i + 1) &&
                 Trace(buf, ts, i) == [Literal(TextOf(buf, ts[i]))] + Trace(buf, ts, i + 1)
  {
  }

  lemma {:induction false} FromMacroName(buf: string, ts: seq<Token>, level: nat, name: Token, paramStart: nat, h: nat)
    requires Buffer(buf, ts) && At(buf, ts, MacroName, level, name, paramStart, h + 1, h)
    ensures var t := ts[h + 1];
            if t.kind.Text? then At(buf, ts, MacroLParen, level, t, paramStart, h + 2, h)
            else var next := if t.kind.Marker? then h + 2 else h + 1;
                 At(buf, ts, Normal, level, name, paramStart, next, next)
                     && Trace(buf, ts, h) == [Hash] + Trace(buf, ts, next)
  {
  }

  lemma {:induction false} FromMacroLParen(buf: string, ts: seq<Token>, level: nat, name: Token, paramStart: nat,
                                           h: nat)
    requires Buffer(buf, ts) && At(buf, ts, MacroLParen, level, name, paramStart, h + 2, h)
    ensures if ts[h + 2].kind.LParen? then At(buf, ts, MacroParam, level + 1, name, ts[h + 2].start + 1, h + 3, h)
            else
              && At(buf, ts, Normal, level, name, paramStart, h + 1, h + 1)
              && Trace(buf, ts, h) == [Hash] + Trace(buf, ts, h + 1)
  {
  }

  lemma {:induction false} InParam(buf: string, ts: seq<Token>, level: nat, name: Token, paramStart: nat, i: nat,
                                   h: nat)
    requires Buffer(buf, ts) && At(buf, ts, MacroParam, level, name, paramStart, i, h)
    ensures level > 0 && name.start + name.len <= |buf| && paramStart <= ts[i].start <= |buf| && i >= 3
  {
    SpanInside(buf, ts, h + 2, i);
  }

  lemma {:induction false} FromMacroParam(buf: string, ts: seq<Token>, level: nat, name: Token, paramStart: nat, i: nat,
                                          h: nat)
    requires Buffer(buf, ts) && At(buf, ts, MacroParam, level, name, paramStart, i, h)
    requires !ts[i].kind.Eof? && !(ts[i].kind.RParen? && level == 1)
    ensures At(buf, ts, MacroParam, if ts[i].kind.LParen? then level + 1 else if ts[i].kind.RParen?
            then level - 1 else level,
               name, paramStart, i + 1, h)
  {
  }

  lemma {:induction false} MacroEnds(buf: string, ts: seq<Token>, name: Token, paramStart: nat, i: nat, h: nat)
    requires Buffer(buf, ts) && At(buf, ts, MacroParam, 1, name, paramStart, i, h) && ts[i].kind.RParen?
    ensures At(buf, ts, Normal, 0, name, paramStart, i + 1, i + 1)
    ensures name.start + name.len <= |buf| && paramStart <= ts[i].start <= |buf|
    ensures Trace(buf, ts, h) == [Macro(TextOf(buf, name), buf[paramStart..ts[i].start])] + Trace(buf, ts, i + 1)
  {
    assert Opens(ts, h) && Close(ts, h + 3, 1) == i;
    MacroTrace(buf, ts, h);
  }

  lemma {:induction false} MacroTrace(buf: string, ts: seq<Token>, h: nat)
    requires Buffer(buf, ts) && Opens(ts, h) && Close(ts, h + 3, 1) < |ts|
    ensures var j := Close(ts, h + 3, 1);
            && ts[h + 1].start + ts[h + 1].len <= |buf| && ts[h + 2].start + 1 <= ts[j].start <= |buf|
            && Trace(buf, ts, h) == [Macro(TextOf(buf, ts[h + 1]),
               buf[ts[h + 2].start + 1..ts[j].start])] + Trace(buf, ts, j + 1)
  {
    SpanInside(buf, ts, h + 2, Close(ts, h + 3, 1));
    BufferMeans(buf, ts);
    hide Close, Buffer, Contiguous, EndsOnce, Pure, TextOf;
  }

  lemma {:induction false} MacroLeftOpen(buf: string, ts: seq<Token>, level: nat, name: Token, paramStart: nat, i: nat,
                                         h: nat)
    requires Buffer(buf, ts) && At(buf, ts, MacroParam, level, name, paramStart, i, h) && ts[i].kind.Eof?
    ensures i == |ts| - 1 && h < |ts| - 3
    ensures At(buf, ts, Normal, level, name, paramStart, |ts| - 3, |ts| - 3)
            && Trace(buf, ts, h) == [Hash] + Trace(buf, ts, |ts| - 3)
  {
  }

  lemma {:induction false} AtMeans(buf: string, ts: seq<Token>, id: StateId, level: nat, name: Token, paramStart: nat,
                                   i: nat, h: nat)
    requires Buffer(buf, ts) && At(buf, ts, id, level, name, paramStart, i, h)
    ensures h <= i <= |ts| && (i == |ts| ==> id == Normal) && (id == Normal ==> h == i)
            && (id == MacroName ==> i == h + 1) && (id == MacroLParen ==> i == h + 2)
    ensures id == MacroParam ==> h + 3 <= i
  {
  }

  /** `process`: the index moves back by up to three tokens, never below 0, and yet the
      loop ends, because the machine is back to normal only behind where it last was. */
  method Process(buf: string, ts: seq<Token>) returns (out: seq<Event>)
    requires Buffer(buf, ts)
    ensures out == Trace(buf, ts, 0)
  {
    hide Trace, Buffer;
    var fsm := new Fsm(buf);
    var i: nat := 0;
    ghost var whole, h: nat := Trace(buf, ts, 0), 0;
    while i < |ts|
      invariant fsm.buf == buf && fsm.Stands(ts, i, h, whole)
      decreases |ts| - h, if fsm.id == Normal then 1 else 0, |ts| - i
    {
      AtMeans(buf, ts, fsm.id, fsm.level, fsm.name, fsm.paramStart, i, h);
      var token := ts[i];
      var back: nat;
      match fsm.id {
        case Normal => back, h := fsm.ProcessNormal(token, ts, i, h, whole);
        case MacroName => back, h := fsm.ProcessMacroName(token, ts, i, h, whole);
        case MacroLParen => back, h := fsm.ProcessMacroLParen(token, ts, i, h, whole);
        case MacroParam => back, h := fsm.ProcessMacroParam(token, ts, i, h, whole);
      }
      i := i - back + 1;
    }
    AtMeans(buf, ts, fsm.id, fsm.level, fsm.name, fsm.paramStart, i, h);
    assert Trace(buf, ts, |ts|) == [] by { TraceEnds(buf, ts); }
    return fsm.out;
  }

  lemma {:induction false} TraceEnds(buf: string, ts: seq<Token>)
    requires Buffer(buf, ts)
    ensures Trace(buf, ts, |ts|) == []
  {
  }

  /** `preprocess`, from the text of the input on. */
  method Preprocess(buf: string) returns (out: seq<Event>)
    ensures Buffer(buf, Tokens(buf, 0)) && out == Trace(buf, Tokens(buf, 0), 0)
  {
    var ts := Tokenize(buf);
    TokensMakeBuffer(buf);
    out := Process(buf, ts);
  }
}
