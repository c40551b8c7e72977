/** What is read back from a written permission store. */
module GhpermRoundTrip {
  import opened Basics
  import opened GhpermLexer
  import opened GhpermText
  import opened PermFs
  import opened Ghperm
  import opened GhpermLoad

  // ---------- the tokens of a written store ----------

  function FlagTokens(bits: seq<Bit>): seq<Token>
    requires KnownFlags(bits)
  {
    if bits == [] then [] else [Text(FlagName(bits[0]))] + FlagTokens(bits[1..])
  }

  function FieldTokens(scope: Scope, verdict: Verdict): seq<Token> {
    [Identifier(ScopeName(scope)), Identifier(ActionName(verdict))]
  }

  function ModeTokens(scope: Scope, verdict: Verdict, mode: Mode): seq<Token>
    requires KnownBits(mode)
  {
    if mode == {} then []
    else FieldTokens(scope, verdict) + FlagTokens(Bits(mode))
  }

  function ModeSetTokens(scope: Scope, modes: ModeSet): seq<Token>
    requires KnownModes(modes)
  {
    ModeTokens(scope, AcceptFlag, modes.accept) + ModeTokens(scope, RejectFlag, modes.reject) + ModeTokens(scope,
        PromptFlag, modes.prompt)
  }

  function BodyTokens(e: Entry): seq<Token>
    requires KnownModes(e.self) && KnownModes(e.children)
  {
    ModeSetTokens(Self, e.self) + ModeSetTokens(Children, e.children)
  }

  function EntryTokens(e: Entry): seq<Token>
    requires KnownModes(e.self) && KnownModes(e.children)
  {
    [Text(e.path), LBrace] + BodyTokens(e) + [RBrace]
  }

  function EntriesTokens(entries: seq<Entry>): seq<Token>
    requires KnownEntries(entries)
  {
    if entries == [] then []
    else EntriesTokens(entries[..|entries| - 1]) + EntryTokens(entries[|entries| - 1])
  }

  /** The value of the field of an entry, as it is written. */
  function ExecValue(mode: ExecMode): Token {
    match mode
    case ExecAccept => Identifier("accept")
    case ExecReject => Text("reject")
    case ExecPrompt => Text("prompt")
  }

  function ExecTokens(e: ExecEntry): seq<Token> {
    [Text(Hex(e.hash)), LBrace, Identifier("mode"), ExecValue(e.mode), RBrace]
  }

  function ExecsTokens(entries: seq<ExecEntry>): seq<Token> {
    if entries == [] then [] else ExecsTokens(entries[..|entries| - 1]) + ExecTokens(entries[|entries| - 1])
  }

  function ResourceTokens(group: string, resource: string, entries: seq<Token>): seq<Token> {
    [Identifier(group), Identifier(resource), LBrace] + entries + [RBrace]
  }

  function FileTokens(store: Store): seq<Token>
    requires KnownEntries(store.fs)
  {
    ResourceTokens("filesystem", "node", EntriesTokens(store.fs)) + ResourceTokens("exec", "cmdline",
        ExecsTokens(store.exec))
  }

  // ---------- the text spells these tokens ----------

  /** Legible text for the given tokens that needs nothing behind it to end a word. */
  ghost predicate Writes(items: seq<Item>, tokens: seq<Token>) {
    TokensOf(items) == tokens && Legible(items) && (items != [] ==> !items[|items| - 1].Word?)
  }

  lemma {:induction false} WritesConcat(a: seq<Item>, s: seq<Token>, b: seq<Item>, t: seq<Token>)
    requires Writes(a, s) && Writes(b, t)
    ensures Writes(a + b, s + t)
  {
    hide TokensOf, Legible;
    TokensOfConcat(a, b);
    LegibleConcat(a, b);
  }

  lemma {:induction false} FlagsWritten(bits: seq<Bit>)
    requires KnownFlags(bits)
    ensures Writes(FlagItems(bits), FlagTokens(bits))
  {
    if bits != [] {
      var head := [Space(" "), Quoted(FlagName(bits[0]))];
      FlagsArePlain(bits[0]);
      TokensOfCons(Quoted(FlagName(bits[0])), []);
      TokensOfCons(Space(" "), [Quoted(FlagName(bits[0]))]);
      assert [Space(" ")] + [Quoted(FlagName(bits[0]))] == head && [Quoted(FlagName(bits[0]))] + [] == head[1..];
      assert Writes(head, [Text(FlagName(bits[0]))]);
      FlagsWritten(bits[1..]);
      WritesConcat(head, [Text(FlagName(bits[0]))], FlagItems(bits[1..]), FlagTokens(bits[1..]));
    }
  }

  lemma {:induction false} FlagsArePlain(b: Bit)
    requires b < FLAG_COUNT
    ensures Clean(FlagName(b))
  {
  }

  lemma {:induction false} WordsAreWords(scope: Scope, verdict: Verdict)
    ensures IsWord(ScopeName(scope)) && IsWord(ActionName(verdict))
    ensures IsWord("filesystem") && IsWord("node") && IsWord("exec") && IsWord("cmdline") && IsWord("mode")
  {
    assert forall c | 'a' <= c <= 'z' :: IsWordChar(c);
    hide IsWordChar;
  }

  lemma {:induction false} NothingWritten()
    ensures Writes([], [])
  {
  }

  lemma {:induction false} BreakWritten(first: bool)
    ensures Writes(Break(first), [])
  {
  }

  lemma {:induction false} FieldHeadWritten(scope: Scope, verdict: Verdict)
    ensures TokensOf(FieldHead(scope, verdict)) == FieldTokens(scope, verdict) && Legible(FieldHead(scope, verdict))
  {
    hide IsWord;
    WordsAreWords(scope, verdict);
    TokensOfFour(Space(TWO_INDENTS), Word(ScopeName(scope)), Space(" "), Word(ActionName(verdict)));
  }

  lemma {:induction false} FieldWritten(scope: Scope, verdict: Verdict, bits: seq<Bit>)
    requires bits != [] && KnownFlags(bits)
    ensures Writes(FieldHead(scope, verdict) + FlagItems(bits), FieldTokens(scope, verdict) + FlagTokens(bits))
  {
    hide FlagItems, FlagTokens, FieldHead, FieldTokens, FlagName, Legible, TokensOf;
    FieldHeadWritten(scope, verdict);
    FlagsWritten(bits);
    FlagsStart(bits);
    TokensOfConcat(FieldHead(scope, verdict), FlagItems(bits));
    LegibleConcat(FieldHead(scope, verdict), FlagItems(bits));
  }

  lemma {:induction false} FlagsStart(bits: seq<Bit>)
    requires bits != [] && KnownFlags(bits)
    ensures FlagItems(bits) != [] && FlagItems(bits)[0] == Space(" ")
  {
  }

  lemma {:induction false} ModeWritten(first: bool, scope: Scope, verdict: Verdict, mode: Mode)
    requires KnownBits(mode)
    ensures Writes(ModeItems(first, scope, verdict, mode), ModeTokens(scope, verdict, mode))
  {
    hide Writes, FlagItems, FlagTokens, FieldHead, FieldTokens, Break, Bits;
    if mode == {} {
      NothingWritten();
    } else {
      var bits := Bits(mode);
      var items, tokens := FieldHead(scope, verdict) + FlagItems(bits), FieldTokens(scope, verdict) + FlagTokens(bits);
      FieldWritten(scope, verdict, bits);
      BreakWritten(first);
      WritesConcat(Break(first), [], items, tokens);
      assert Break(first) + items == ModeItems(first, scope, verdict, mode);
      assert [] + tokens == ModeTokens(scope, verdict, mode);
    }
  }

  lemma {:induction false} ModeSetWritten(first: bool, scope: Scope, modes: ModeSet)
    requires KnownModes(modes)
    ensures Writes(ModeSetItems(first, scope, modes), ModeSetTokens(scope, modes))
  {
    hide Writes, ModeItems, ModeTokens;
    var a, r, p := ModeItems(first, scope, AcceptFlag, modes.accept),
      ModeItems(first && modes.accept == {}, scope, RejectFlag, modes.reject),
      ModeItems(first && modes.accept == {} && modes.reject == {}, scope, PromptFlag, modes.prompt);
    var a', r', p' := ModeTokens(scope, AcceptFlag, modes.accept), ModeTokens(scope, RejectFlag, modes.reject),
      ModeTokens(scope, PromptFlag, modes.prompt);
    ModeWritten(first, scope, AcceptFlag, modes.accept);
    ModeWritten(first && modes.accept == {}, scope, RejectFlag, modes.reject);
    ModeWritten(first && modes.accept == {} && modes.reject == {}, scope, PromptFlag, modes.prompt);
    WritesConcat(a, a', r, r');
    WritesConcat(a + r, a' + r', p, p');
  }

  lemma {:induction false} EntryHeadWritten(key: string)
    requires Clean(key)
    ensures Writes(EntryHead(key), [Text(key), LBrace])
  {
    TokensOfFive(Space(ONE_INDENT), Quoted(key), Space(" "), Item.Open, Space("\n"));
  }

  lemma {:induction false} EntryWritten(e: Entry)
    requires KnownModes(e.self) && KnownModes(e.children) && Clean(e.path)
    ensures Writes(EntryItems(e), EntryTokens(e))
  {
    hide Writes, ModeSetItems, ModeSetTokens, Break, EntryHead, Ending;
    var begin, close := EntryHead(e.path), Ending(ONE_INDENT);
    var s, c := ModeSetItems(true, Self, e.self), ModeSetItems(e.self == EMPTY, Children, e.children);
    var s', c' := ModeSetTokens(Self, e.self), ModeSetTokens(Children, e.children);
    var end := Break(e.self == EMPTY && e.children == EMPTY);
    EntryHeadWritten(e.path);
    EndingWritten(ONE_INDENT);
    ModeSetWritten(true, Self, e.self);
    ModeSetWritten(e.self == EMPTY, Children, e.children);
    BreakWritten(e.self == EMPTY && e.children == EMPTY);
    WritesConcat(begin, [Text(e.path), LBrace], s, s');
    WritesConcat(begin + s, [Text(e.path), LBrace] + s', c, c');
    WritesConcat(begin + s + c, [Text(e.path), LBrace] + s' + c', end, []);
    WritesConcat(begin + s + c + end, [Text(e.path), LBrace] + s' + c' + [], close, [RBrace]);
    assert [Text(e.path), LBrace] + s' + c' + [] + [RBrace] == EntryTokens(e);
  }

  lemma {:induction false} EntriesWritten(entries: seq<Entry>)
    requires KnownEntries(entries) && CleanPaths(entries)
    ensures Writes(EntriesItems(entries), EntriesTokens(entries))
  {
    hide EntryItems, EntryTokens, Clean;
    if entries != [] {
      var last := |entries| - 1;
      assert entries[last] in entries;
      EntriesWritten(entries[..last]);
      EntryWritten(entries[last]);
      WritesConcat(EntriesItems(entries[..last]), EntriesTokens(entries[..last]), EntryItems(entries[last]),
                   EntryTokens(entries[last]));
    }
  }

  lemma {:induction false} ExecFieldWritten(mode: ExecMode)
    ensures Writes([Space(TWO_INDENTS), Word("mode"), Space(" "), ExecModeItem(mode), Space("\n")],
                   [Identifier("mode"), ExecValue(mode)])
  {
    WordsAreWords(Self, AcceptFlag);
    TokensOfFive(Space(TWO_INDENTS), Word("mode"), Space(" "), ExecModeItem(mode), Space("\n"));
  }

  lemma {:induction false} ExecWritten(e: ExecEntry)
    ensures Writes(ExecItems(e), ExecTokens(e))
  {
    hide Writes, EntryHead, Ending;
    var begin, close := EntryHead(Hex(e.hash)), Ending(ONE_INDENT);
    var field := [Space(TWO_INDENTS), Word("mode"), Space(" "), ExecModeItem(e.mode), Space("\n")];
    var field' := [Identifier("mode"), ExecValue(e.mode)];
    EntryHeadWritten(Hex(e.hash));
    EndingWritten(ONE_INDENT);
    ExecFieldWritten(e.mode);
    WritesConcat(begin, [Text(Hex(e.hash)), LBrace], field, field');
    WritesConcat(begin + field, [Text(Hex(e.hash)), LBrace] + field', close, [RBrace]);
    assert begin + field + close == ExecItems(e);
    assert [Text(Hex(e.hash)), LBrace] + field' + [RBrace] == ExecTokens(e);
  }

  lemma {:induction false} ExecsWritten(entries: seq<ExecEntry>)
    ensures Writes(ExecsItems(entries), ExecsTokens(entries))
  {
    hide ExecItems, ExecTokens;
    if entries != [] {
      var last := |entries| - 1;
      ExecsWritten(entries[..last]);
      ExecWritten(entries[last]);
      WritesConcat(ExecsItems(entries[..last]), ExecsTokens(entries[..last]), ExecItems(entries[last]),
                   ExecTokens(entries[last]));
    }
  }

  lemma {:induction false} EndingWritten(indent: string)
    requires forall c | c in indent :: IsSpace(c)
    ensures Writes(Ending(indent), [RBrace])
  {
    TokensOfThree(Space(indent), Close, Space("\n"));
  }

  lemma {:induction false} ResourceHeadWritten(group: string, resource: string)
    requires IsWord(group) && IsWord(resource)
    ensures Writes(ResourceHead(group, resource), [Identifier(group), Identifier(resource), LBrace])
  {
    hide IsWord, TokensOf, Render;
    var names := [Space(""), Word(group), Space(" "), Word(resource)];
    var brace := [Space(" "), Item.Open, Space("\n")];
    TokensOfFour(Space(""), Word(group), Space(" "), Word(resource));
    TokensOfThree(Space(" "), Item.Open, Space("\n"));
    TokensOfConcat(names, brace);
    assert names + brace == ResourceHead(group, resource);
  }

  lemma {:induction false} ResourceWritten(group: string, resource: string, items: seq<Item>, tokens: seq<Token>)
    requires IsWord(group) && IsWord(resource) && Writes(items, tokens)
    ensures Writes(ResourceItems(group, resource, items), ResourceTokens(group, resource, tokens))
  {
    hide Writes, IsWord, ResourceHead, Ending;
    var begin := ResourceHead(group, resource);
    var begin' := [Identifier(group), Identifier(resource), LBrace];
    ResourceHeadWritten(group, resource);
    EndingWritten("");
    WritesConcat(begin, begin', items, tokens);
    WritesConcat(begin + items, begin' + tokens, Ending(""), [RBrace]);
  }

  lemma {:induction false} FileWritten(store: Store)
    requires KnownEntries(store.fs) && CleanPaths(store.fs)
    ensures Writes(FileItems(store), FileTokens(store))
    ensures Lex(Render(FileItems(store))) == Prepend(FileTokens(store), End)
  {
    hide EntriesItems, ExecsItems, EntriesTokens, ExecsTokens, ResourceItems, ResourceTokens, IsWord, Lex, CleanPaths,
      KnownEntries;
    EntriesWritten(store.fs);
    ExecsWritten(store.exec);
    WordsAreWords(Self, AcceptFlag);
    var f, f' := EntriesItems(store.fs), EntriesTokens(store.fs);
    var x, x' := ExecsItems(store.exec), ExecsTokens(store.exec);
    ResourceWritten("filesystem", "node", f, f');
    ResourceWritten("exec", "cmdline", x, x');
    WritesConcat(ResourceItems("filesystem", "node", f), ResourceTokens("filesystem", "node", f'),
                 ResourceItems("exec", "cmdline", x), ResourceTokens("exec", "cmdline", x'));
    LexRender(FileItems(store));
  }

  // ---------- reading the tokens back ----------

  ghost predicate NotText(ts: Stream) {
    ts.More? && !ts.token.Text?
  }

  lemma {:induction false} PrependCons(t: Token, tokens: seq<Token>, rest: Stream)
    ensures Prepend([t] + tokens, rest) == More(t, Prepend(tokens, rest))
  {
  }

  lemma {:induction false} SetNothing(e: Entry, scope: Scope, verdict: Verdict)
    ensures SetField(e, scope, verdict, {}) == e
  {
  }

  lemma {:induction false} SetTwice(e: Entry, scope: Scope, verdict: Verdict, a: Mode, b: Mode)
    ensures SetField(SetField(e, scope, verdict, a), scope, verdict, b) == SetField(e, scope, verdict, a + b)
  {
  }

  lemma {:induction false} SetFsNothing(store: Store, index: nat, scope: Scope, verdict: Verdict)
    requires index < |store.fs|
    ensures SetFsField(store, index, scope, verdict, {}) == store
  {
    hide SetField;
    SetNothing(store.fs[index], scope, verdict);
  }

  lemma {:induction false} SetFsTwice(store: Store, index: nat, scope: Scope, verdict: Verdict, a: Mode, b: Mode)
    requires index < |store.fs|
    ensures SetFsField(SetFsField(store, index, scope, verdict, a), index, scope, verdict, b) ==
            SetFsField(store, index, scope, verdict, a + b)
  {
    hide SetField;
    SetTwice(store.fs[index], scope, verdict, a, b);
  }

  lemma {:induction false} FlagIsRead(b: Bit, rest: Stream, store: Store, index: nat, scope: Scope, verdict: Verdict)
    requires b < FLAG_COUNT && index < |store.fs|
    ensures ParseFlags(More(Text(FlagName(b)), rest), store, index, scope, verdict) ==
            ParseFlags(rest, SetFsField(store, index, scope, verdict, {b}), index, scope, verdict)
  {
    hide SetField, FlagName;
    FlagOfName(b);
  }

  lemma {:induction false} FlagsAreRead(bits: seq<Bit>, rest: Stream, store: Store, index: nat, scope: Scope,
                                        verdict: Verdict)
    requires KnownFlags(bits)
    requires NotText(rest) && index < |store.fs|
    ensures ParseFlags(Prepend(FlagTokens(bits), rest), store, index, scope, verdict) ==
            Parsed(Good, SetFsField(store, index, scope, verdict, BitSet(bits)), rest)
    decreases |bits|
  {
    hide SetField, FlagName, SetFsField;
    if bits == [] {
      assert BitSet(bits) == {};
      SetFsNothing(store, index, scope, verdict);
    } else {
      PrependCons(Text(FlagName(bits[0])), FlagTokens(bits[1..]), rest);
      FlagIsRead(bits[0], Prepend(FlagTokens(bits[1..]), rest), store, index, scope, verdict);
      FlagsAreRead(bits[1..], rest, SetFsField(store, index, scope, verdict, {bits[0]}), index, scope, verdict);
      SetFsTwice(store, index, scope, verdict, {bits[0]}, BitSet(bits[1..]));
      assert BitSet(bits) == {bits[0]} + BitSet(bits[1..]);
    }
  }

  lemma {:induction false} NamesAreRead(scope: Scope, verdict: Verdict)
    ensures VerdictOf(ActionName(verdict)) == Some(verdict)
    ensures ScopeName(scope) == "self" || ScopeName(scope) == "children"
    ensures scope == (if ScopeName(scope) == "self" then Self else Children)
    ensures |ScopeName(scope)| < ID_MAX
  {
  }

  lemma {:induction false} FieldIsRead(scope: Scope, verdict: Verdict, mode: Mode, rest: Stream, store: Store,
                                       index: nat)
    requires KnownBits(mode) && NotText(rest) && index < |store.fs|
    ensures NotText(Prepend(ModeTokens(scope, verdict, mode), rest))
    ensures ParseFields(Filesystem, Prepend(ModeTokens(scope, verdict, mode), rest), store, index) ==
            ParseFields(Filesystem, rest, SetFsField(store, index, scope, verdict, mode), index)
  {
    hide SetFsField, Bits, FlagTokens, ParseFlags, ActionName, ScopeName, VerdictOf;
    if mode == {} {
      SetFsNothing(store, index, scope, verdict);
    } else {
      NamesAreRead(scope, verdict);
      var flags := FlagTokens(Bits(mode));
      FlagsAreRead(Bits(mode), rest, store, index, scope, verdict);
      PrependCons(Identifier(ActionName(verdict)), flags, rest);
      PrependCons(Identifier(ScopeName(scope)), [Identifier(ActionName(verdict))] + flags, rest);
      var ts := Prepend(flags, rest);
      assert BitSet(Bits(mode)) == mode;
      assert ParseFsField(More(Identifier(ActionName(verdict)), ts), store, index, ScopeName(scope)) ==
             Parsed(Good, SetFsField(store, index, scope, verdict, mode), rest);
      assert FieldTokens(scope, verdict) + flags ==
             [Identifier(ScopeName(scope))] + ([Identifier(ActionName(verdict))] + flags);
    }
  }

  /** The entry with the bits of `m` added to those it has for the scope. */
  function WithModes(e: Entry, scope: Scope, m: ModeSet): Entry {
    match scope
    case Self => e.(self := Join(e.self, m))
    case Children => e.(children := Join(e.children, m))
  }

  lemma {:induction false} SetAll(e: Entry, scope: Scope, m: ModeSet)
    ensures SetField(SetField(SetField(e, scope, AcceptFlag, m.accept), scope, RejectFlag, m.reject), scope,
            PromptFlag, m.prompt) ==
            WithModes(e, scope, m)
  {
  }

  lemma {:induction false} ModeSetIsRead(scope: Scope, m: ModeSet, rest: Stream, store: Store, index: nat)
    requires KnownModes(m) && NotText(rest) && index < |store.fs|
    ensures NotText(Prepend(ModeSetTokens(scope, m), rest))
    ensures ParseFields(Filesystem, Prepend(ModeSetTokens(scope, m), rest), store, index) ==
            ParseFields(Filesystem, rest, store.(fs := store.fs[index := WithModes(store.fs[index], scope, m)]), index)
  {
    hide SetField, ModeTokens, ParseFields, KnownBits, WithModes;
    var a, r, p := ModeTokens(scope, AcceptFlag, m.accept), ModeTokens(scope, RejectFlag, m.reject),
      ModeTokens(scope, PromptFlag, m.prompt);
    PrependConcat(a + r, p, rest);
    PrependConcat(a, r, Prepend(p, rest));
    var first := SetFsField(store, index, scope, AcceptFlag, m.accept);
    var second := SetFsField(first, index, scope, RejectFlag, m.reject);
    FieldIsRead(scope, PromptFlag, m.prompt, rest, second, index);
    FieldIsRead(scope, RejectFlag, m.reject, Prepend(p, rest), first, index);
    FieldIsRead(scope, AcceptFlag, m.accept, Prepend(r, Prepend(p, rest)), store, index);
    SetAll(store.fs[index], scope, m);
    assert SetFsField(second, index, scope, PromptFlag, m.prompt).fs ==
      store.fs[index := WithModes(store.fs[index], scope, m)];
  }

  lemma {:induction false} BodyIsRead(e: Entry, rest: Stream, store: Store, index: nat)
    requires KnownModes(e.self) && KnownModes(e.children) && index < |store.fs|
    requires store.fs[index] == Entry(e.path, EMPTY, EMPTY)
    ensures ParseFields(Filesystem, Prepend(BodyTokens(e) + [RBrace], rest), store, index) ==
            Parsed(Good, store.(fs := store.fs[index := e]), rest)
  {
    hide ModeSetTokens, KnownModes;
    var s, c := ModeSetTokens(Self, e.self), ModeSetTokens(Children, e.children);
    var end := More(RBrace, rest);
    PrependConcat(s + c, [RBrace], rest);
    PrependCons(RBrace, [], rest);
    PrependConcat(s, c, end);
    var first := store.(fs := store.fs[index := WithModes(store.fs[index], Self, e.self)]);
    ModeSetIsRead(Children, e.children, end, first, index);
    ModeSetIsRead(Self, e.self, Prepend(c, end), store, index);
    assert WithModes(WithModes(store.fs[index], Self, e.self), Children, e.children) == e;
    assert first.fs[index := WithModes(first.fs[index], Children, e.children)] == store.fs[index := e];
  }

  ghost predicate NewPath(entries: seq<Entry>, path: string) {
    forall i | 0 <= i < |entries| :: entries[i].path != path
  }

  lemma {:induction false} EntryIsRead(e: Entry, rest: Stream, store: Store)
    requires KnownModes(e.self) && KnownModes(e.children) && NewPath(store.fs, e.path)
    ensures ParseEntries(Filesystem, Prepend(EntryTokens(e), rest), store) ==
            ParseEntries(Filesystem, rest, store.(fs := store.fs + [e]))
  {
    hide BodyTokens, KnownModes, ParseFields;
    var body := BodyTokens(e) + [RBrace];
    var entered := store.(fs := store.fs + [Entry(e.path, EMPTY, EMPTY)]);
    assert EntryTokens(e) == [Text(e.path)] + ([LBrace] + body);
    PrependCons(Text(e.path), [LBrace] + body, rest);
    PrependCons(LBrace, body, rest);
    assert OpenEntry(Filesystem, store, e.path) == Entered(entered, |store.fs|);
    BodyIsRead(e, rest, entered, |store.fs|);
    assert entered.fs[|store.fs| := e] == store.fs + [e];
  }

  lemma {:induction false} EntriesAreRead(entries: seq<Entry>, rest: Stream, store: Store)
    requires KnownEntries(entries) && Distinct(store.fs + entries)
    ensures ParseEntries(Filesystem, Prepend(EntriesTokens(entries), rest), store) ==
            ParseEntries(Filesystem, rest, store.(fs := store.fs + entries))
    decreases |entries|
  {
    hide EntryTokens, ParseEntries, KnownModes;
    if entries == [] {
      assert store.fs + entries == store.fs;
    } else {
      var last := |entries| - 1;
      var front, e := entries[..last], entries[last];
      assert e in entries;
      assert store.fs + entries == store.fs + front + [e];
      var all := store.fs + entries;
      forall i | 0 <= i < |store.fs + front| ensures (store.fs + front)[i].path != e.path {
        assert (store.fs + front)[i] == all[i] && e == all[|all| - 1];
      }
      assert Distinct(store.fs + front) by {
        assert forall i | 0 <= i < |store.fs + front| :: (store.fs + front)[i] == all[i];
      }
      PrependConcat(EntriesTokens(front), EntryTokens(e), rest);
      EntriesAreRead(front, Prepend(EntryTokens(e), rest), store);
      EntryIsRead(e, rest, store.(fs := store.fs + front));
    }
  }

  lemma {:induction false} ExecIsRead(e: ExecEntry, rest: Stream, store: Store)
    ensures e.mode == ExecAccept ==>
              ParseEntries(Exec, Prepend(ExecTokens(e), rest), store) ==
              ParseEntries(Exec, rest, store.(exec := store.exec + [e]))
    ensures e.mode != ExecAccept ==>
              ParseEntries(Exec, Prepend(ExecTokens(e), rest), store).status == ExpectedIdentifier
  {
    hide Hex, Unhex, ParseFields, ExecTokens;
    var entered := store.(exec := store.exec + [ExecEntry(store.defaultMode, e.hash)]);
    UnhexHex(e.hash);
    assert OpenEntry(Exec, store, Hex(e.hash)) == Entered(entered, |store.exec|);
    ExecStream(e, rest);
    if e.mode == ExecAccept {
      ExecFieldIsRead(e, rest, entered, |store.exec|);
      assert entered.exec[|store.exec| := e] == store.exec + [e];
    } else {
      ExecFieldIsRefused(e, rest, entered, |store.exec|);
    }
  }

  lemma {:induction false} ExecStream(e: ExecEntry, rest: Stream)
    ensures Prepend(ExecTokens(e), rest) ==
            More(Text(Hex(e.hash)), More(LBrace, More(Identifier("mode"), More(ExecValue(e.mode), More(RBrace, rest)))))
  {
    hide Hex;
    var key, value := Text(Hex(e.hash)), ExecValue(e.mode);
    assert ExecTokens(e) == [key] + ([LBrace] + ([Identifier("mode")] + ([value] + ([RBrace] + []))));
    hide ExecTokens;
    PrependCons(key, [LBrace] + ([Identifier("mode")] + ([value] + ([RBrace] + []))), rest);
    PrependCons(LBrace, [Identifier("mode")] + ([value] + ([RBrace] + [])), rest);
    PrependCons(Identifier("mode"), [value] + ([RBrace] + []), rest);
    PrependCons(value, [RBrace] + [], rest);
    PrependCons(RBrace, [], rest);
  }

  lemma {:induction false} ExecFieldIsRefused(e: ExecEntry, rest: Stream, store: Store, index: nat)
    requires index < |store.exec| && e.mode != ExecAccept
    ensures var fields := More(Identifier("mode"), More(ExecValue(e.mode), More(RBrace, rest)));
            ParseFields(Exec, fields, store, index).status == ExpectedIdentifier
  {
  }

  lemma {:induction false} ExecFieldIsRead(e: ExecEntry, rest: Stream, store: Store, index: nat)
    requires index < |store.exec| && store.exec[index].hash == e.hash && e.mode == ExecAccept
    ensures ParseFields(Exec, More(Identifier("mode"), More(Identifier("accept"), More(RBrace, rest))), store, index) ==
            Parsed(Good, store.(exec := store.exec[index := e]), rest)
  {
  }

  predicate AllAccept(entries: seq<ExecEntry>) {
    forall i | 0 <= i < |entries| :: entries[i].mode == ExecAccept
  }

  lemma {:induction false} ExecsAreRead(entries: seq<ExecEntry>, rest: Stream, store: Store)
    ensures AllAccept(entries) ==>
              ParseEntries(Exec, Prepend(ExecsTokens(entries), rest), store) ==
              ParseEntries(Exec, rest, store.(exec := store.exec + entries))
    ensures !AllAccept(entries) ==>
              ParseEntries(Exec, Prepend(ExecsTokens(entries), rest), store).status == ExpectedIdentifier
    decreases |entries|
  {
    hide ExecTokens, ParseEntries;
    if entries == [] {
      assert store.exec + entries == store.exec;
    } else {
      var last := |entries| - 1;
      var front, e := entries[..last], entries[last];
      assert store.exec + entries == store.exec + front + [e];
      PrependConcat(ExecsTokens(front), ExecTokens(e), rest);
      ExecsAreRead(front, Prepend(ExecTokens(e), rest), store);
      ExecIsRead(e, rest, store.(exec := store.exec + front));
      assert AllAccept(entries) <==> AllAccept(front) && e.mode == ExecAccept;
    }
  }

  // ---------- the round trip ----------

  lemma {:induction false} ResourceIsRead(group: string, name: string, resource: Resource, tokens: seq<Token>,
                                          rest: Stream, store: Store)
    requires ResourceOf(group, name) == Some(resource) && |group| < ID_MAX && |name| < ID_MAX
    ensures ParseResource(Prepend(ResourceTokens(group, name, tokens), rest), store) ==
            ParseEntries(resource, Prepend(tokens, More(RBrace, rest)), store)
    ensures Prepend(ResourceTokens(group, name, tokens), rest).More?
  {
    hide ParseEntries;
    var all := ResourceTokens(group, name, tokens);
    assert all == [Identifier(group)] + ([Identifier(name)] + ([LBrace] + (tokens + [RBrace])));
    PrependConcat(tokens, [RBrace], rest);
    PrependCons(RBrace, [], rest);
    PrependCons(LBrace, tokens + [RBrace], rest);
    PrependCons(Identifier(name), [LBrace] + (tokens + [RBrace]), rest);
    PrependCons(Identifier(group), [Identifier(name)] + ([LBrace] + (tokens + [RBrace])), rest);
  }

  lemma {:induction false} ResourceNames()
    ensures ResourceOf("filesystem", "node") == Some(Filesystem) && ResourceOf("exec", "cmdline") == Some(Exec)
    ensures |"filesystem"| < ID_MAX && |"node"| < ID_MAX && |"exec"| < ID_MAX && |"cmdline"| < ID_MAX
  {
  }

  lemma {:induction false} FileIsRead(store: Store, mode: ExecMode)
    requires KnownEntries(store.fs) && Distinct(store.fs)
    ensures var r := ParseAll(Prepend(FileTokens(store), End), Store([], [], mode));
            (AllAccept(store.exec) ==> r == Parsed(Good, Store(store.fs, store.exec, mode), End)) &&
            (!AllAccept(store.exec) ==> r.status == ExpectedIdentifier)
  {
    hide EntriesTokens, ExecsTokens, ResourceOf, ResourceTokens, ParseResource, KnownEntries, AllAccept, Distinct;
    var empty := Store([], [], mode);
    var loaded := Store(store.fs, [], mode);
    var f := ResourceTokens("filesystem", "node", EntriesTokens(store.fs));
    var x := ResourceTokens("exec", "cmdline", ExecsTokens(store.exec));
    ResourceNames();
    PrependConcat(f, x, End);
    ResourceIsRead("filesystem", "node", Filesystem, EntriesTokens(store.fs), Prepend(x, End), empty);
    ResourceIsRead("exec", "cmdline", Exec, ExecsTokens(store.exec), End, loaded);
    assert [] + store.fs == store.fs && [] + store.exec == store.exec;
    EntriesAreRead(store.fs, More(RBrace, Prepend(x, End)), empty);
    ExecsAreRead(store.exec, More(RBrace, End), loaded);
    assert ParseResource(Prepend(f + x, End), empty) == Parsed(Good, loaded, Prepend(x, End));
    if AllAccept(store.exec) {
      var all := Store(store.fs, store.exec, mode);
      assert ParseResource(Prepend(x, End), loaded) == Parsed(Good, all, End);
      assert ParseAll(End, all) == Parsed(Good, all, End);
      assert ParseAll(Prepend(x, End), loaded) == ParseAll(End, all);
    }
  }

  /** What a policy must be for the file written from it to hold it. */
  ghost predicate Writable(store: Store) {
    KnownEntries(store.fs) && Distinct(store.fs) && CleanPaths(store.fs) && AllAccept(store.exec)
  }

  /** The policy can be written, and loading the file into an empty store gives it back. */
  ghost predicate ComesBack(store: Store, mode: ExecMode) {
    && Written(store).Some?
    && var r := Load(Written(store).value, Store([], [], mode));
       r.status == Good && r.store.fs == store.fs && r.store.exec == store.exec
  }

  lemma {:induction false} LoadedIsSound(text: string, mode: ExecMode)
    ensures var r := Load(text, Store([], [], mode)); Distinct(r.store.fs) && CleanPaths(r.store.fs)
  {
    hide ParseAll, Tokens;
    TokensAreClean(text, SkipSpace(text, 0));
    var ops := ParseIsRun(Lex(text), Store([], [], mode));
  }

  /** A policy comes back from its file if and only if its paths are distinct and free
      of quotes, backslashes, `#` and NUL, its bits have names, and its command line
      entries are all in accept mode. */
  lemma {:induction false} RoundTripIff(store: Store, mode: ExecMode)
    ensures ComesBack(store, mode) <==> Writable(store)
  {
    hide ParseAll, Lex, Render, FileItems, FileTokens, KnownEntries, AllAccept, Distinct, CleanPaths;
    if KnownEntries(store.fs) {
      LoadedIsSound(Written(store).value, mode);
      if CleanPaths(store.fs) && Distinct(store.fs) {
        FileWritten(store);
        FileIsRead(store, mode);
      }
    }
  }
}
