/** How a written permission store looks (src/ghost/perms/writer.c; permfs.c, lines 710-768;
    permexec.c, lines 430-474). */
module GhpermLayout {
  import opened Basics
  import opened GhpermText
  import opened PermFs
  import opened Ghperm

  function FlagsText(bits: seq<Bit>): string
    requires KnownFlags(bits)
  {
    if bits == [] then "" else " \"" + FlagName(bits[0]) + "\"" + FlagsText(bits[1..])
  }

  function FieldStart(scope: Scope, verdict: Verdict): string {
    var field := match scope case Self => "self" case Children => "children";
    var action := match verdict case AcceptFlag => "accept" case RejectFlag => "reject" case PromptFlag => "prompt";
    "        " + field + " " + action
  }

  /** The line of one field; none for an empty mode. */
  function FieldLine(scope: Scope, verdict: Verdict, mode: Mode): string
    requires KnownBits(mode)
  {
    if mode == {} then "" else FieldStart(scope, verdict) + FlagsText(Bits(mode)) + "\n"
  }

  function FieldLines(scope: Scope, modes: ModeSet): string
    requires KnownModes(modes)
  {
    FieldLine(scope, AcceptFlag, modes.accept) + FieldLine(scope, RejectFlag, modes.reject) +
    FieldLine(scope, PromptFlag, modes.prompt)
  }

  function HeadText(key: string): string {
    "    \"" + key + "\" {\n"
  }

  function EntryText(e: Entry): string
    requires KnownModes(e.self) && KnownModes(e.children)
  {
    HeadText(e.path) + (FieldLines(Self, e.self) + FieldLines(Children, e.children)) + "    }\n"
  }

  function EntriesText(entries: seq<Entry>): string
    requires KnownEntries(entries)
  {
    if entries == [] then "" else EntriesText(entries[..|entries| - 1]) + EntryText(entries[|entries| - 1])
  }

  function ModeLine(mode: ExecMode): string {
    var value := match mode
      case ExecAccept => "accept"
      case ExecReject => "\"" + "reject" + "\""
      case ExecPrompt => "\"" + "prompt" + "\"";
    "        " + "mode" + " " + value + "\n"
  }

  function ExecText(e: ExecEntry): string {
    HeadText(Hex(e.hash)) + ModeLine(e.mode) + "    }\n"
  }

  function ExecsText(entries: seq<ExecEntry>): string {
    if entries == [] then "" else ExecsText(entries[..|entries| - 1]) + ExecText(entries[|entries| - 1])
  }

  function FileText(store: Store): string
    requires KnownEntries(store.fs)
  {
    ("filesystem node {\n" + EntriesText(store.fs) + "}\n") + ("exec cmdline {\n" + ExecsText(store.exec) + "}\n")
  }

  function LineBreak(first: bool): string {
    if first then "" else "\n"
  }

  lemma {:induction false} RenderFlags(bits: seq<Bit>)
    requires KnownFlags(bits)
    ensures Render(FlagItems(bits)) == FlagsText(bits)
  {
    hide FlagName;
    if bits == [] {
      assert Render([]) == "";
    } else {
      var name := FlagName(bits[0]);
      RenderFlags(bits[1..]);
      RenderConcat([Space(" "), Quoted(name)], FlagItems(bits[1..]));
      RenderTwo(Space(" "), Quoted(name));
      assert " " + ("\"" + name + "\"") == " \"" + name + "\"";
    }
    hide Render;
  }

  lemma {:induction false} RenderTwo(a: Item, b: Item)
    ensures Render([a, b]) == Spell(a) + Spell(b)
  {
    RenderConcat([a], [b]);
    assert [a] + [b] == [a, b];
    assert [a][1..] == [] && [b][1..] == [];
  }

  lemma {:induction false} RenderFour(a: Item, b: Item, c: Item, d: Item)
    ensures Render([a, b, c, d]) == Spell(a) + Spell(b) + Spell(c) + Spell(d)
  {
    RenderTwo(a, b);
    RenderTwo(c, d);
    RenderConcat([a, b], [c, d]);
    assert [a, b] + [c, d] == [a, b, c, d];
  }

  lemma {:induction false} RenderBreak(first: bool)
    ensures Render(Break(first)) == LineBreak(first)
  {
    assert [Space("\n")][1..] == [];
  }

  /** The line break belongs to the line before, as far as there is one. */
  lemma {:induction false} RenderField(first: bool, scope: Scope, verdict: Verdict, mode: Mode)
    requires KnownBits(mode)
    ensures Render(ModeItems(first, scope, verdict, mode)) + LineBreak(first && mode == {}) ==
            LineBreak(first) + FieldLine(scope, verdict, mode)
  {
    if mode != {} {
      var head, flags := FieldHead(scope, verdict), FlagItems(Bits(mode));
      RenderFlags(Bits(mode));
      RenderBreak(first);
      RenderStart(scope, verdict);
      RenderConcat(Break(first) + head, flags);
      RenderConcat(Break(first), head);
      assert Render(ModeItems(first, scope, verdict, mode)) ==
             LineBreak(first) + FieldStart(scope, verdict) + FlagsText(Bits(mode));
      LineAt(LineBreak(first), FieldStart(scope, verdict), FlagsText(Bits(mode)));
    }
    hide Render, Bits, FlagItems, FlagsText, FieldStart, FieldHead, Break;
  }

  lemma {:induction false} LineAt(before: string, start: string, flags: string)
    ensures before + start + flags + "\n" == before + (start + flags + "\n")
  {
  }

  lemma {:induction false} RenderStart(scope: Scope, verdict: Verdict)
    ensures Render(FieldHead(scope, verdict)) == FieldStart(scope, verdict)
  {
    RenderFour(Space(TWO_INDENTS), Word(ScopeName(scope)), Space(" "), Word(ActionName(verdict)));
    hide Render;
  }

  /** Three texts, each with the break behind it that belongs to the one before. */
  lemma {:induction false} BreaksMove(a: string, b: string, c: string, x: string, y: string, z: string,
                                      l0: string, l1: string, l2: string, l3: string)
    requires a + l1 == l0 + x && b + l2 == l1 + y && c + l3 == l2 + z
    ensures a + b + c + l3 == l0 + (x + y + z)
  {
    assert a + b + c + l3 == a + b + (c + l3) == a + (b + l2) + z == a + l1 + y + z;
    assert l0 + x + y + z == l0 + (x + y + z);
  }

  lemma {:induction false} RenderFields(first: bool, scope: Scope, modes: ModeSet)
    requires KnownModes(modes)
    ensures Render(ModeSetItems(first, scope, modes)) + LineBreak(first && modes == EMPTY) ==
            LineBreak(first) + FieldLines(scope, modes)
  {
    hide Render, ModeItems, FieldLine, LineBreak;
    var second, third := first && modes.accept == {}, first && modes.accept == {} && modes.reject == {};
    var a := ModeItems(first, scope, AcceptFlag, modes.accept);
    var r := ModeItems(second, scope, RejectFlag, modes.reject);
    var p := ModeItems(third, scope, PromptFlag, modes.prompt);
    RenderField(first, scope, AcceptFlag, modes.accept);
    RenderField(second, scope, RejectFlag, modes.reject);
    RenderField(third, scope, PromptFlag, modes.prompt);
    RenderConcat(a + r, p);
    RenderConcat(a, r);
    BreaksMove(Render(a), Render(r), Render(p), FieldLine(scope, AcceptFlag, modes.accept),
               FieldLine(scope, RejectFlag, modes.reject), FieldLine(scope, PromptFlag, modes.prompt),
               LineBreak(first), LineBreak(second), LineBreak(third), LineBreak(third && modes.prompt == {}));
  }

  lemma {:induction false} RenderHead(key: string)
    ensures Render(EntryHead(key)) == HeadText(key)
  {
    RenderFour(Space(ONE_INDENT), Quoted(key), Space(" "), Item.Open);
    RenderConcat([Space(ONE_INDENT), Quoted(key), Space(" "), Item.Open], [Space("\n")]);
    RenderBreak(false);
    assert EntryHead(key) == [Space(ONE_INDENT), Quoted(key), Space(" "), Item.Open] + [Space("\n")];
    hide Render;
  }

  lemma {:induction false} RenderEnding(indent: string)
    ensures Render(Ending(indent)) == indent + "}\n"
  {
    RenderTwo(Space(indent), Close);
    RenderConcat([Space(indent), Close], [Space("\n")]);
    RenderBreak(false);
    assert Ending(indent) == [Space(indent), Close] + [Space("\n")];
  }

  lemma {:induction false} RenderEntry(e: Entry)
    requires KnownModes(e.self) && KnownModes(e.children)
    ensures Render(EntryItems(e)) == EntryText(e)
  {
    hide Render, ModeSetItems, FieldLines, EntryHead, Ending, LineBreak, HeadText, Break;
    var head, self, children := EntryHead(e.path), ModeSetItems(true, Self, e.self),
      ModeSetItems(e.self == EMPTY, Children, e.children);
    var empty, ending := e.self == EMPTY && e.children == EMPTY, Ending(ONE_INDENT);
    var end := Break(empty);
    RenderHead(e.path);
    RenderFields(true, Self, e.self);
    RenderFields(e.self == EMPTY, Children, e.children);
    RenderBreak(empty);
    RenderEnding(ONE_INDENT);
    RenderConcat(head + self + children + end, ending);
    RenderConcat(head + self + children, end);
    RenderConcat(head + self, children);
    RenderConcat(head, self);
    assert LineBreak(true) == "" by { NoBreak(); }
    BreaksMove(Render(self), Render(children), "", FieldLines(Self, e.self), FieldLines(Children, e.children), "",
               "", LineBreak(e.self == EMPTY), LineBreak(empty), LineBreak(empty));
    Regroup(Render(head), Render(self), Render(children), LineBreak(empty), FieldLines(Self, e.self),
            FieldLines(Children, e.children), Render(ending));
  }

  lemma {:induction false} NoBreak()
    ensures LineBreak(true) == ""
  {
  }

  lemma {:induction false} Regroup(head: string, a: string, b: string, end: string, x: string, y: string, last: string)
    requires a + b + "" + end == "" + (x + y + "")
    ensures head + a + b + end + last == head + (x + y) + last
  {
    assert a + b + "" == a + b && "" + (x + y + "") == x + y;
    assert head + a + b + end == head + (a + b + end);
  }

  lemma {:induction false} RenderEntries(entries: seq<Entry>)
    requires KnownEntries(entries)
    ensures Render(EntriesItems(entries)) == EntriesText(entries)
  {
    hide EntryItems, EntryText;
    if entries != [] {
      var last := |entries| - 1;
      assert entries[last] in entries;
      RenderEntries(entries[..last]);
      RenderEntry(entries[last]);
      RenderConcat(EntriesItems(entries[..last]), EntryItems(entries[last]));
    }
  }

  lemma {:induction false} RenderExec(e: ExecEntry)
    ensures Render(ExecItems(e)) == ExecText(e)
  {
    hide Hex, Render, EntryHead, Ending, HeadText, ModeLine;
    var head := EntryHead(Hex(e.hash));
    var field := [Space(TWO_INDENTS), Word("mode"), Space(" "), ExecModeItem(e.mode), Space("\n")];
    RenderHead(Hex(e.hash));
    RenderMode(e.mode);
    RenderEnding(ONE_INDENT);
    RenderConcat(head + field, Ending(ONE_INDENT));
    RenderConcat(head, field);
  }

  lemma {:induction false} RenderMode(mode: ExecMode)
    ensures Render([Space(TWO_INDENTS), Word("mode"), Space(" "), ExecModeItem(mode), Space("\n")]) == ModeLine(mode)
  {
    var field := [Space(TWO_INDENTS), Word("mode"), Space(" "), ExecModeItem(mode)];
    RenderFour(Space(TWO_INDENTS), Word("mode"), Space(" "), ExecModeItem(mode));
    RenderBreak(false);
    RenderConcat(field, [Space("\n")]);
    assert field + [Space("\n")] == [Space(TWO_INDENTS), Word("mode"), Space(" "), ExecModeItem(mode), Space("\n")];
    hide Render;
  }

  lemma {:induction false} RenderExecs(entries: seq<ExecEntry>)
    ensures Render(ExecsItems(entries)) == ExecsText(entries)
  {
    hide ExecItems, ExecText;
    if entries != [] {
      var last := |entries| - 1;
      RenderExecs(entries[..last]);
      RenderExec(entries[last]);
      RenderConcat(ExecsItems(entries[..last]), ExecItems(entries[last]));
    }
  }

  lemma {:induction false} RenderResource(group: string, name: string, entries: seq<Item>)
    ensures Render(ResourceItems(group, name, entries)) == (group + " " + name + " {\n") + Render(entries) + "}\n"
  {
    hide Render, ResourceHead, Ending;
    var head := ResourceHead(group, name);
    RenderTitle(group, name);
    RenderEnding("");
    assert "" + "}\n" == "}\n";
    RenderConcat(head + entries, Ending(""));
    RenderConcat(head, entries);
  }

  lemma {:induction false} RenderTitle(group: string, name: string)
    ensures Render(ResourceHead(group, name)) == group + " " + name + " {\n"
  {
    var four, rest := [Space(""), Word(group), Space(" "), Word(name)], [Space(" "), Item.Open];
    RenderFour(Space(""), Word(group), Space(" "), Word(name));
    RenderTwo(Space(" "), Item.Open);
    RenderBreak(false);
    RenderConcat(four + rest, [Space("\n")]);
    RenderConcat(four, rest);
    assert ResourceHead(group, name) == four + rest + [Space("\n")];
    hide Render, ResourceHead;
    TitleIs(group, name);
  }

  lemma {:induction false} TitleIs(group: string, name: string)
    ensures "" + group + " " + name + (" " + "{") + "\n" == group + " " + name + " {\n"
  {
    assert " {\n" == " " + "{" + "\n";
    assert "" + group == group;
  }

  /** The text of every file that can be written. */
  lemma {:induction false} WrittenLooksLike(store: Store)
    ensures Written(store) == if KnownEntries(store.fs) then Some(FileText(store)) else None
  {
    hide Render, ResourceItems, EntriesItems, ExecsItems, EntriesText, ExecsText, KnownEntries;
    if KnownEntries(store.fs) {
      RenderEntries(store.fs);
      RenderExecs(store.exec);
      RenderResource("filesystem", "node", EntriesItems(store.fs));
      RenderResource("exec", "cmdline", ExecsItems(store.exec));
      assert "filesystem" + " " + "node" + " {\n" == "filesystem node {\n";
      assert "exec" + " " + "cmdline" + " {\n" == "exec cmdline {\n";
      RenderConcat(ResourceItems("filesystem", "node", EntriesItems(store.fs)),
                   ResourceItems("exec", "cmdline", ExecsItems(store.exec)));
    }
  }
}
