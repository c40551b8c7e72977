/** The GHPERM writer as the program runs it (src/ghost/perms/writer.c, and the writing
    halves of permfs.c and permexec.c). */
module GhpermWriter {
  import opened Basics
  import opened Memory
  import opened GhpermText
  import opened PermFs
  import opened Ghperm

  datatype Layer = GroupResource | EntryLayer | FieldArgs

  const INDENT: string := "    "

  function Indent(scope: nat): string {
    if scope == 0 then "" else Indent(scope - 1) + INDENT
  }

  lemma {:induction false} IndentsOfScopes()
    ensures Indent(0) == "" && Indent(1) == ONE_INDENT && Indent(2) == TWO_INDENTS
  {
  }

  lemma {:induction false} RenderSnoc(items: seq<Item>, item: Item)
    ensures Render(items + [item]) == Render(items) + Spell(item)
  {
    RenderConcat(items, [item]);
    assert [item][1..] == [];
  }

  /** Where `nextmodeflag` finds the first flag. */
  lemma {:induction false} LowestFrom(mode: Mode, i: nat, b: nat)
    requires i <= b < 32 && b in mode && forall x | x in mode :: b <= x
    ensures BitsFrom(mode, i) == [b] + BitsFrom(mode - {b}, i)
  {
    NothingBelow(mode, i, b);
    NothingBelow(mode - {b}, i, b + 1);
    SameFrom(mode, mode - {b}, b + 1);
  }

  lemma {:induction false} LowestBit(mode: Mode, b: Bit)
    requires b in mode && forall x | x in mode :: b <= x
    ensures Bits(mode) == [b] + Bits(mode - {b})
  {
    hide BitsFrom;
    LowestFrom(mode, 0, b);
  }

  lemma {:induction false} NothingBelow(mode: Mode, i: nat, b: nat)
    requires i <= b <= 32 && forall x | x in mode :: b <= x
    ensures BitsFrom(mode, i) == BitsFrom(mode, b)
    decreases b - i
  {
    if i < b {
      NothingBelow(mode, i + 1, b);
    }
  }

  lemma {:induction false} SameFrom(m: Mode, n: Mode, b: nat)
    requires b <= 32 && forall x: Bit | b <= x :: x in m <==> x in n
    ensures BitsFrom(m, b) == BitsFrom(n, b)
    decreases 32 - b
  {
    if b < 32 {
      SameFrom(m, n, b + 1);
    }
  }

  /** `gh_permfs_nextmodeflag` */
  method NextModeFlag(state: Mode) returns (found: bool, state': Mode, flag: Bit)
    ensures found <==> state != {}
    ensures found ==> flag in state && state' == state - {flag}
    ensures Bits(state) == Left(found, flag, state')
  {
    state', flag := state, 0;
    if state == {} {
      return false, state', flag;
    }
    var i := 0;
    while i < 32
      invariant i <= 32 && forall x | x in state :: i <= x
    {
      if i in state {
        LowestBit(state, i);
        return true, state - {i}, i;
      }
      i := i + 1;
    }
    assert false;
  }

  ghost function Left(found: bool, flag: Bit, state: Mode): seq<Bit> {
    if found then [flag] + Bits(state) else []
  }

  class Writer {
    var out: string
    var scope: nat
    var layer: Layer
    /** The pieces that have been written. */
    ghost var items: seq<Item>

    ghost predicate Valid()
      reads this
    {
      out == Render(items)
    }

    constructor ()
      ensures Valid() && items == [] && scope == 0 && layer == GroupResource
    {
      out, scope, layer, items := "", 0, GroupResource, [];
    }

    method Write(text: string, ghost item: Item)
      requires Valid() && text == Spell(item)
      modifies this`out, this`items
      ensures Valid() && items == old(items) + [item]
    {
      RenderSnoc(items, item);
      out := out + text;
      items := items + [item];
    }

    method WriteSpaced(text: string, ghost item: Item)
      requires Valid() && text == Spell(item)
      modifies this`out, this`items
      ensures Valid() && items == old(items) + [item, Space("\n")]
    {
      Write(text, item);
      Write("\n", Space("\n"));
    }

    method PrintIndent()
      requires Valid()
      modifies this`out, this`items
      ensures Valid() && items == old(items) + [Space(Indent(scope))]
    {
      var i := 0;
      while i < scope
        invariant i <= scope && out == old(out) + Indent(i) && items == old(items)
      {
        out := out + INDENT;
        i := i + 1;
        assert Indent(i) == Indent(i - 1) + INDENT;
      }
      RenderSnoc(items, Space(Indent(scope)));
      items := items + [Space(Indent(scope))];
    }

    /** A string between quotes; no character of it is escaped. */
    method WriteQuoted(s: string)
      requires Valid()
      modifies this`out, this`items
      ensures Valid() && items == old(items) + [Quoted(s)]
    {
      hide Render;
      out := out + "\"";
      var i := 0;
      while i < |s|
        invariant i <= |s| && out == old(out) + "\"" + s[..i] && items == old(items)
      {
        out := out + [s[i]];
        i := i + 1;
      }
      out := out + "\"";
      assert s[..i] == s;
      assert out == old(out) + ("\"" + s + "\"");
      RenderSnoc(items, Quoted(s));
      items := items + [Quoted(s)];
    }

    method BeginResource(group: string, resource: string)
      requires Valid() && scope == 0
      modifies this
      ensures Valid() && items == old(items) + ResourceHead(group, resource)
      ensures scope == 1 && layer == EntryLayer
    {
      hide Render;
      PrintIndent();
      Write(group, Word(group));
      Write(" ", Space(" "));
      Write(resource, Word(resource));
      Write(" ", Space(" "));
      WriteSpaced("{", Item.Open);
      scope := scope + 1;
      layer := EntryLayer;
    }

    method EndResource()
      requires Valid() && scope == 1
      modifies this
      ensures Valid() && items == old(items) + Ending("")
      ensures scope == 0 && layer == old(layer)
    {
      hide Render;
      if scope > 0 {
        scope := scope - 1;
      }
      PrintIndent();
      WriteSpaced("}", Close);
    }

    method BeginEntry(key: string)
      requires Valid() && scope == 1
      modifies this
      ensures Valid() && items == old(items) + EntryHead(key)
      ensures scope == 2 && layer == EntryLayer
    {
      hide Render;
      IndentsOfScopes();
      PrintIndent();
      WriteQuoted(key);
      Write(" ", Space(" "));
      WriteSpaced("{", Item.Open);
      scope := scope + 1;
      layer := EntryLayer;
    }

    method EndEntry()
      requires Valid() && scope == 2
      modifies this
      ensures Valid() && items == old(items) + Break(old(layer) == EntryLayer) + Ending(ONE_INDENT)
      ensures scope == 1 && layer == GroupResource
    {
      hide Render;
      IndentsOfScopes();
      if layer != EntryLayer {
        Write("\n", Space("\n"));
      }
      layer := GroupResource;
      if scope > 0 {
        scope := scope - 1;
      }
      PrintIndent();
      WriteSpaced("}", Close);
    }

    method Field(key: string)
      requires Valid() && scope == 2
      modifies this
      ensures Valid() && items == old(items) + Break(old(layer) == EntryLayer) + [Space(TWO_INDENTS), Word(key)]
      ensures scope == 2 && layer == FieldArgs
    {
      hide Render;
      IndentsOfScopes();
      if layer != EntryLayer {
        Write("\n", Space("\n"));
      }
      PrintIndent();
      Write(key, Word(key));
      layer := FieldArgs;
    }

    method FieldArgString(value: string)
      requires Valid() && layer == FieldArgs
      modifies this
      ensures Valid() && items == old(items) + [Space(" "), Quoted(value)]
      ensures scope == old(scope) && layer == FieldArgs
    {
      hide Render;
      if layer == FieldArgs {
        Write(" ", Space(" "));
      }
      layer := FieldArgs;
      WriteQuoted(value);
    }

    method FieldArgIdent(value: string)
      requires Valid() && layer == FieldArgs
      modifies this
      ensures Valid() && items == old(items) + [Space(" "), Word(value)]
      ensures scope == old(scope) && layer == FieldArgs
    {
      hide Render;
      if layer == FieldArgs {
        Write(" ", Space(" "));
      }
      layer := FieldArgs;
      Write(value, Word(value));
    }

    // ---------- policies ----------

    /** The flags of a mode, lowest first, up to the first that has no name. */
    method WriteFlags(mode: Mode) returns (ok: bool)
      requires Valid() && layer == FieldArgs
      modifies this
      ensures Valid() && scope == old(scope) && layer == FieldArgs && (ok <==> KnownBits(mode))
      ensures ok ==> items == old(items) + FlagItems(Bits(mode))
    {
      hide Bits, FlagItems, FlagName, Render, Splits, Left, KnownFlags, KnownBits;
      var found, state: Mode, flag: Bit := NextModeFlag(mode);
      ghost var done: seq<Bit> := [];
      FirstFlag(mode, found, flag, state);
      while found
        invariant Valid() && scope == old(scope) && layer == FieldArgs
        invariant KnownFlags(done) && items == old(items) + FlagItems(done)
        invariant Splits(Bits(mode), done, Left(found, flag, state))
        decreases |Left(found, flag, state)|
      {
        if flag >= FLAG_COUNT {
          UnknownFlag(mode, done, flag, state);
          return false;
        }
        FieldArgString(FlagName(flag));
        FlagItemsSnoc(done, flag);
        ghost var done', flag', state' := done + [flag], flag, state;
        found, state, flag := NextModeFlag(state);
        LaterFlag(mode, done, flag', state', found, flag, state);
        done := done';
      }
      LastFlag(mode, done, flag, state);
      return true;
    }

    /** `permfs_writemode` */
    method WriteMode(scopeName: Scope, verdict: Verdict, mode: Mode) returns (ok: bool)
      requires Valid() && scope == 2 && layer != GroupResource
      modifies this
      ensures Valid() && scope == 2 && (ok <==> KnownBits(mode))
      ensures ok ==> items == old(items) + ModeItems(old(layer) == EntryLayer, scopeName, verdict, mode)
      ensures layer == if mode == {} then old(layer) else FieldArgs
    {
      hide Bits, FlagItems, Render, ScopeName, ActionName, Break;
      if mode == {} {
        return true;
      }
      Field(ScopeName(scopeName));
      FieldArgIdent(ActionName(verdict));
      assert items == old(items) + Break(old(layer) == EntryLayer) + FieldHead(scopeName, verdict);
      ok := WriteFlags(mode);
    }

    /** `permfs_writemodeset` */
    method WriteModeSet(scopeName: Scope, modes: ModeSet) returns (ok: bool)
      requires Valid() && scope == 2 && layer != GroupResource
      modifies this
      ensures Valid() && scope == 2 && (ok <==> KnownModes(modes))
      ensures ok ==> items == old(items) + ModeSetItems(old(layer) == EntryLayer, scopeName, modes)
      ensures ok ==> layer == if modes == EMPTY then old(layer) else FieldArgs
    {
      hide Render, ModeItems, KnownBits;
      ghost var first := layer == EntryLayer;
      ok := WriteMode(scopeName, AcceptFlag, modes.accept);
      if !ok {
        return;
      }
      ok := WriteMode(scopeName, RejectFlag, modes.reject);
      if !ok {
        return;
      }
      ok := WriteMode(scopeName, PromptFlag, modes.prompt);
    }

    /** One round of the loop of `gh_permfs_write` */
    method WriteEntry(e: Entry) returns (ok: bool)
      requires Valid() && scope == 1
      modifies this
      ensures Valid() && (ok <==> KnownModes(e.self) && KnownModes(e.children))
      ensures ok ==> scope == 1 && items == old(items) + EntryItems(e)
    {
      hide Render, ModeSetItems, KnownModes, EntryHead, Ending, Break;
      BeginEntry(e.path);
      ok := WriteModeSet(Self, e.self);
      if !ok {
        return;
      }
      ok := WriteModeSet(Children, e.children);
      if !ok {
        return;
      }
      EndEntry();
    }

    /** `gh_permfs_write` */
    method WriteFs(entries: seq<Entry>) returns (ok: bool)
      requires Valid() && scope == 0
      modifies this
      ensures Valid() && (ok <==> KnownEntries(entries))
      ensures ok ==> scope == 0 && items == old(items) + ResourceItems("filesystem", "node", EntriesItems(entries))
    {
      hide Render, EntryItems, KnownModes, ResourceHead, Ending, EntriesItems;
      BeginResource("filesystem", "node");
      ghost var head := items;
      var i := 0;
      NoEntries();
      while i < |entries|
        invariant i <= |entries| && Valid() && scope == 1
        invariant KnownEntries(entries[..i]) && items == head + EntriesItems(entries[..i])
      {
        ok := WriteEntry(entries[i]);
        if !ok {
          return;
        }
        EntriesItemsSnoc(entries, i);
        i := i + 1;
      }
      assert entries[..i] == entries;
      EndResource();
      return true;
    }

    /** One round of the loop of `gh_permexec_write` */
    method WriteExecEntry(e: ExecEntry)
      requires Valid() && scope == 1
      modifies this
      ensures Valid() && scope == 1 && items == old(items) + ExecItems(e)
    {
      hide Render, EntryHead, Ending, Hex;
      var key := HexBytes(e.hash);
      BeginEntry(key);
      Field("mode");
      match e.mode {
        case ExecAccept => FieldArgIdent("accept");
        case ExecReject => FieldArgString("reject");
        case ExecPrompt => FieldArgString("prompt");
      }
      EndEntry();
    }

    /** `gh_permexec_write` */
    method WriteExec(entries: seq<ExecEntry>)
      requires Valid() && scope == 0
      modifies this
      ensures Valid() && scope == 0 && items == old(items) + ResourceItems("exec", "cmdline", ExecsItems(entries))
    {
      hide Render, ExecItems, ResourceHead, Ending, ExecsItems;
      BeginResource("exec", "cmdline");
      ghost var head := items;
      var i := 0;
      NoEntries();
      while i < |entries|
        invariant i <= |entries| && Valid() && scope == 1
        invariant items == head + ExecsItems(entries[..i])
      {
        WriteExecEntry(entries[i]);
        ExecsItemsSnoc(entries, i);
        i := i + 1;
      }
      assert entries[..i] == entries;
      EndResource();
    }
  }

  /** The loop of `gh_permexec_write` that spells a hash */
  method HexBytes(hash: Digest) returns (s: string)
    ensures s == Hex(hash)
  {
    s := "";
    var i := 0;
    while i < DIGEST_LENGTH
      invariant i <= |hash| && Hex(hash) == s + Hex(hash[i..])
    {
      var high, low := NibbleChar(hash[i] / 16), NibbleChar(hash[i] % 16);
      assert hash[i..][1..] == hash[i + 1..];
      s := s + [high, low];
      i := i + 1;
    }
    assert hash[i..] == [];
  }

  /** `permexec_readhash` */
  method UnhexBytes(s: string) returns (hash: Option<seq<Byte>>)
    ensures hash == ReadHash(s)
  {
    hide NibbleOf, Unhex;
    if |s| != 2 * DIGEST_LENGTH {
      return None;
    }
    var bytes: seq<Byte> := [];
    var i := 0;
    assert s[2 * i..] == s && (Unhex(s).Some? ==> bytes + Unhex(s).value == Unhex(s).value);
    while i < DIGEST_LENGTH
      invariant i <= DIGEST_LENGTH && |bytes| == i
      invariant Unhex(s) == Then(bytes, Unhex(s[2 * i..]))
    {
      var high, low := NibbleOf(s[2 * i]), NibbleOf(s[2 * i + 1]);
      UnhexStep(s, i, bytes);
      if high.None? || low.None? {
        return None;
      }
      bytes := bytes + [high.value * 16 + low.value];
      i := i + 1;
    }
    assert s[2 * i..] == "" && Unhex("") == Some([]) && bytes + [] == bytes by { NothingToUnhex(); }
    return Some(bytes);
  }

  lemma {:induction false} NothingToUnhex()
    ensures Unhex("") == Some([])
  {
  }

  ghost function Then(bytes: seq<Byte>, rest: Option<seq<Byte>>): Option<seq<Byte>> {
    if rest.None? then None else Some(bytes + rest.value)
  }

  lemma {:induction false} UnhexStep(s: string, i: nat, bytes: seq<Byte>)
    requires 2 * i + 1 < |s|
    ensures var high, low := NibbleOf(s[2 * i]), NibbleOf(s[2 * i + 1]);
            Then(bytes, Unhex(s[2 * i..])) ==
            if high.None? || low.None? then None
            else Then(bytes + [high.value * 16 + low.value], Unhex(s[2 * (i + 1)..]))
  {
    hide NibbleOf;
    var t := s[2 * i..];
    assert t[2..] == s[2 * (i + 1)..] && t[0] == s[2 * i] && t[1] == s[2 * i + 1];
    var high, low, rest := NibbleOf(t[0]), NibbleOf(t[1]), Unhex(t[2..]);
    if high.Some? && low.Some? && rest.Some? {
      assert bytes + ([high.value * 16 + low.value] + rest.value) == bytes + [high.value * 16 + low.value] + rest.value;
    }
  }

  /** `gh_perms_write`: on failure the file is emptied. */
  method WriteStore(store: Store) returns (ok: bool, file: string)
    ensures match Written(store)
            case Some(text) => ok && file == text
            case None => !ok && file == ""
  {
    hide Render, EntriesItems, ExecsItems, KnownEntries, ResourceItems;
    var writer := new Writer();
    ok := writer.WriteFs(store.fs);
    if !ok {
      return false, "";
    }
    writer.WriteExec(store.exec);
    assert writer.items == FileItems(store);
    return true, writer.out;
  }

  lemma {:induction false} NoEntries()
    ensures EntriesItems([]) == [] && ExecsItems([]) == []
  {
  }

  lemma {:induction false} EntriesItemsSnoc(entries: seq<Entry>, i: nat)
    requires i < |entries| && KnownEntries(entries[..i]) && KnownModes(entries[i].self)
    requires KnownModes(entries[i].children)
    ensures KnownEntries(entries[..i + 1]) && EntriesItems(entries[..i + 1]) ==
            EntriesItems(entries[..i]) + EntryItems(entries[i])
  {
    hide EntryItems, KnownModes;
    assert entries[..i + 1][..i] == entries[..i];
  }

  lemma {:induction false} ExecsItemsSnoc(entries: seq<ExecEntry>, i: nat)
    requires i < |entries|
    ensures ExecsItems(entries[..i + 1]) == ExecsItems(entries[..i]) + ExecItems(entries[i])
  {
    hide ExecItems;
    assert entries[..i + 1][..i] == entries[..i];
  }

  ghost predicate Splits(whole: seq<Bit>, done: seq<Bit>, left: seq<Bit>) {
    whole == done + left
  }

  lemma {:induction false} FirstFlag(mode: Mode, found: bool, flag: Bit, state: Mode)
    requires Bits(mode) == Left(found, flag, state)
    ensures KnownFlags([]) && FlagItems([]) == [] && Splits(Bits(mode), [], Left(found, flag, state))
  {
  }

  lemma {:induction false} LeftIs(flag: Bit, state: Mode)
    ensures Left(true, flag, state) == [flag] + Bits(state)
  {
  }

  lemma {:induction false} MoveFlag(whole: seq<Bit>, done: seq<Bit>, flag: Bit, rest: seq<Bit>)
    requires Splits(whole, done, [flag] + rest) && KnownFlags(done) && flag < FLAG_COUNT
    ensures Splits(whole, done + [flag], rest) && KnownFlags(done + [flag])
  {
  }

  lemma {:induction false} LaterFlag(mode: Mode, done: seq<Bit>, flag: Bit, state: Mode, found': bool, flag': Bit,
                                     state': Mode)
    requires Splits(Bits(mode), done, Left(true, flag, state)) && Bits(state) == Left(found', flag', state')
    requires KnownFlags(done) && flag < FLAG_COUNT
    ensures Splits(Bits(mode), done + [flag], Left(found', flag', state')) && KnownFlags(done + [flag])
    ensures |Left(found', flag', state')| < |Left(true, flag, state)|
  {
    hide *;
    var rest := Bits(state);
    assert Left(true, flag, state) == [flag] + rest by { LeftIs(flag, state); }
    MoveFlag(Bits(mode), done, flag, rest);
  }

  lemma {:induction false} UnknownFlag(mode: Mode, done: seq<Bit>, flag: Bit, state: Mode)
    requires Splits(Bits(mode), done, Left(true, flag, state)) && flag >= FLAG_COUNT
    ensures !KnownBits(mode)
  {
    hide Bits;
    assert Bits(mode)[|done|] == flag;
  }

  lemma {:induction false} LastFlag(mode: Mode, done: seq<Bit>, flag: Bit, state: Mode)
    requires Splits(Bits(mode), done, Left(false, flag, state)) && KnownFlags(done)
    ensures Bits(mode) == done && KnownBits(mode)
  {
  }

  lemma {:induction false} FlagItemsSnoc(bits: seq<Bit>, b: Bit)
    requires KnownFlags(bits) && b < FLAG_COUNT
    ensures FlagItems(bits + [b]) == FlagItems(bits) + [Space(" "), Quoted(FlagName(b))]
  {
    hide FlagName;
    if bits != [] {
      FlagItemsSnoc(bits[1..], b);
      assert (bits + [b])[1..] == bits[1..] + [b];
    }
  }
}
