/** The grammar of the permission store file, and what a file means
    (src/ghost/perms/parser.c; permfs.c and permexec.c from where they read fields). */
module GhpermGrammar {
  import opened Basics
  import opened GhpermLexer
  import opened PermFs
  import opened Ghperm
  import opened GhpermLoad
  import opened GhpermRoundTrip
  import opened PermExec

  // ---------- policies as they are written ----------

  /** `self accept "read" "write"`, for example. */
  datatype FsField = FsField(scope: Scope, verdict: Verdict, flags: seq<Bit>)

  datatype FsBlock = FsBlock(path: string, fields: seq<FsField>)

  /** The hash as it is written, and the value of each `mode` field. */
  datatype ExecBlock = ExecBlock(key: string, modes: seq<ExecMode>)

  datatype Section = FsSection(fs: seq<FsBlock>) | ExecSection(exec: seq<ExecBlock>)

  predicate SoundFields(fields: seq<FsField>) {
    forall i | 0 <= i < |fields| :: KnownFlags(fields[i].flags)
  }

  predicate SoundFsBlocks(blocks: seq<FsBlock>) {
    forall i | 0 <= i < |blocks| :: SoundFields(blocks[i].fields)
  }

  predicate HashKeys(blocks: seq<ExecBlock>) {
    forall i | 0 <= i < |blocks| :: ReadHash(blocks[i].key).Some?
  }

  predicate SoundSection(s: Section) {
    match s
    case FsSection(blocks) => SoundFsBlocks(blocks)
    case ExecSection(blocks) => HashKeys(blocks)
  }

  /** All flags have names, and all hashes are 64 hexadecimal digits. */
  predicate Sound(policy: seq<Section>) {
    forall i | 0 <= i < |policy| :: SoundSection(policy[i])
  }

  function ModeWord(mode: ExecMode): string {
    match mode
    case ExecAccept => "accept"
    case ExecReject => "reject"
    case ExecPrompt => "prompt"
  }

  /** The words of the file. */
  lemma {:induction false} Words()
    ensures ActionName(AcceptFlag) == "accept" && ActionName(RejectFlag) == "reject"
    ensures ActionName(PromptFlag) == "prompt"
    ensures ScopeName(Self) == "self" && ScopeName(Children) == "children"
    ensures FlagName(0) == "createfile" && FlagName(1) == "createdir" && FlagName(2) == "access.u+r"
    ensures FlagName(3) == "access.u+w" && FlagName(4) == "access.u+x" && FlagName(5) == "access.g+r"
    ensures FlagName(6) == "access.g+w" && FlagName(7) == "access.g+x" && FlagName(8) == "access.o+r"
    ensures FlagName(9) == "access.o+w" && FlagName(10) == "access.o+x" && FlagName(11) == "read"
    ensures FlagName(12) == "write" && FlagName(13) == "unlink" && FlagName(14) == "move"
  {
  }

  // ---------- their tokens ----------

  function FlagsThen(flags: seq<Bit>, rest: Stream): Stream
    requires KnownFlags(flags)
  {
    if flags == [] then rest else More(Text(FlagName(flags[0])), FlagsThen(flags[1..], rest))
  }

  function FieldsThen(fields: seq<FsField>, rest: Stream): Stream
    requires SoundFields(fields)
  {
    if fields == [] then rest
    else
      var FsField(scope, verdict, flags) := fields[0];
      More(Identifier(ScopeName(scope)), More(Identifier(ActionName(verdict)),
                                              FlagsThen(flags, FieldsThen(fields[1..], rest))))
  }

  function FsBlocksThen(blocks: seq<FsBlock>, rest: Stream): Stream
    requires SoundFsBlocks(blocks)
  {
    if blocks == [] then rest
    else
      More(Text(blocks[0].path), More(LBrace, FieldsThen(blocks[0].fields,
                                                         More(RBrace, FsBlocksThen(blocks[1..], rest)))))
  }

  function ModesThen(modes: seq<ExecMode>, rest: Stream): Stream {
    if modes == [] then rest
    else More(Identifier("mode"), More(Identifier(ModeWord(modes[0])), ModesThen(modes[1..], rest)))
  }

  function ExecBlocksThen(blocks: seq<ExecBlock>, rest: Stream): Stream {
    if blocks == [] then rest
    else
      More(Text(blocks[0].key), More(LBrace, ModesThen(blocks[0].modes,
                                                       More(RBrace, ExecBlocksThen(blocks[1..], rest)))))
  }

  function SectionThen(s: Section, rest: Stream): Stream
    requires SoundSection(s)
  {
    match s
    case FsSection(blocks) =>
      More(Identifier("filesystem"), More(Identifier("node"), More(LBrace, FsBlocksThen(blocks, More(RBrace, rest)))))
    case ExecSection(blocks) =>
      More(Identifier("exec"), More(Identifier("cmdline"), More(LBrace, ExecBlocksThen(blocks, More(RBrace, rest)))))
  }

  /** The tokens of a policy. */
  function PolicyTokens(policy: seq<Section>): Stream
    requires Sound(policy)
  {
    if policy == [] then End else SectionThen(policy[0], PolicyTokens(policy[1..]))
  }

  // ---------- their meaning ----------

  function FlagOps(path: string, scope: Scope, verdict: Verdict, flags: seq<Bit>): seq<Op> {
    seq(|flags|, i requires 0 <= i < |flags| => Field(path, scope, verdict, {flags[i]}))
  }

  function FieldOps(path: string, fields: seq<FsField>): seq<Op> {
    if fields == [] then []
    else FlagOps(path, fields[0].scope, fields[0].verdict, fields[0].flags) + FieldOps(path, fields[1..])
  }

  function BlockOps(blocks: seq<FsBlock>): seq<Op> {
    if blocks == [] then []
    else [Open(blocks[0].path)] + FieldOps(blocks[0].path, blocks[0].fields) + BlockOps(blocks[1..])
  }

  /** The last `mode` field counts; an entry without one gets the default. */
  function ExecsOf(blocks: seq<ExecBlock>, byDefault: ExecMode): seq<ExecEntry>
    requires HashKeys(blocks)
  {
    if blocks == [] then []
    else
      var b := blocks[0];
      [ExecEntry(if b.modes == [] then byDefault else b.modes[|b.modes| - 1], ReadHash(b.key).value)] +
      ExecsOf(blocks[1..], byDefault)
  }

  function SectionMeans(s: Section, store: Store): Store
    requires SoundSection(s)
  {
    match s
    case FsSection(blocks) => store.(fs := Run(store.fs, BlockOps(blocks)))
    case ExecSection(blocks) => store.(exec := store.exec + ExecsOf(blocks, store.defaultMode))
  }

  /** What a policy makes of a store: each flag is an operation of the engine; the command line
      entries come behind those that are there. */
  function Means(policy: seq<Section>, store: Store): Store
    requires Sound(policy)
  {
    if policy == [] then store else Means(policy[1..], SectionMeans(policy[0], store))
  }

  // ---------- a policy is read as what it means ----------

  lemma {:induction false} FieldStays(entries: seq<Entry>, path: string, e: Entry)
    requires IndexOf(entries, path) < |entries| && e.path == path
    ensures IndexOf(entries[IndexOf(entries, path) := e], path) == IndexOf(entries, path)
  {
    var after := entries[IndexOf(entries, path) := e];
    assert after[IndexOf(entries, path)].path == path;
  }

  lemma {:induction false} FlagsRead(flags: seq<Bit>, rest: Stream, store: Store, path: string, scope: Scope,
                                     verdict: Verdict)
    requires KnownFlags(flags) && NotText(rest)
    requires IndexOf(store.fs, path) < |store.fs|
    ensures var after := Run(store.fs, FlagOps(path, scope, verdict, flags));
            && ParseFlags(FlagsThen(flags, rest), store, IndexOf(store.fs, path), scope, verdict) ==
               Parsed(Good, store.(fs := after), rest)
            && |after| == |store.fs| && IndexOf(after, path) == IndexOf(store.fs, path)
    decreases |flags|
  {
    hide SetBits, IndexOf;
    var i, ops := IndexOf(store.fs, path), FlagOps(path, scope, verdict, flags);
    if flags != [] {
      var next := SetFsField(store, i, scope, verdict, {flags[0]});
      assert next.fs == Step(store.fs, ops[0]).entries;
      FlagOfName(flags[0]);
      FieldStays(store.fs, path, next.fs[i]);
      FlagsRead(flags[1..], rest, next, path, scope, verdict);
      assert ops[1..] == FlagOps(path, scope, verdict, flags[1..]);
    }
  }

  lemma {:induction false} OneFieldRead(f: FsField, rest: Stream, store: Store, path: string)
    requires KnownFlags(f.flags) && NotText(rest) && IndexOf(store.fs, path) < |store.fs|
    ensures var value := More(Identifier(ActionName(f.verdict)), FlagsThen(f.flags, rest));
            var ts := More(Identifier(ScopeName(f.scope)), value);
            var next := store.(fs := Run(store.fs, FlagOps(path, f.scope, f.verdict, f.flags)));
            && IndexOf(next.fs, path) == IndexOf(store.fs, path) && |next.fs| == |store.fs|
            && ParseFields(Filesystem, ts, store, IndexOf(store.fs, path)) ==
               ParseFields(Filesystem, rest, next, IndexOf(store.fs, path))
  {
    hide ParseFlags, FlagOps, FlagsThen, IndexOf, Run, SetField, VerdictOf, ActionName, ScopeName;
    NamesAreRead(f.scope, f.verdict);
    FlagsRead(f.flags, rest, store, path, f.scope, f.verdict);
  }

  lemma {:induction false} FieldsRead(fields: seq<FsField>, rest: Stream, store: Store, path: string)
    requires SoundFields(fields) && IndexOf(store.fs, path) < |store.fs|
    ensures ParseFields(Filesystem, FieldsThen(fields, More(RBrace, rest)), store, IndexOf(store.fs, path)) ==
            Parsed(Good, store.(fs := Run(store.fs, FieldOps(path, fields))), rest)
    decreases |fields|
  {
    hide ParseFlags, FlagOps, FlagsThen, IndexOf, Step, ScopeName, ActionName;
    if fields != [] {
      var f := fields[0];
      var more, ops := FieldsThen(fields[1..], More(RBrace, rest)), FlagOps(path, f.scope, f.verdict, f.flags);
      OneFieldRead(f, more, store, path);
      FieldsRead(fields[1..], rest, store.(fs := Run(store.fs, ops)), path);
      RunConcat(store.fs, ops, FieldOps(path, fields[1..]));
    }
  }

  lemma {:induction false} Opened(entries: seq<Entry>, path: string)
    ensures IndexOf(Added(entries, path, EMPTY, EMPTY), path) == IndexOf(entries, path)
    ensures IndexOf(entries, path) < |Added(entries, path, EMPTY, EMPTY)|
  {
    var after := Added(entries, path, EMPTY, EMPTY);
    assert after[IndexOf(entries, path)].path == path;
  }

  lemma {:induction false} FsBlocksRead(blocks: seq<FsBlock>, rest: Stream, store: Store)
    requires SoundFsBlocks(blocks)
    ensures ParseEntries(Filesystem, FsBlocksThen(blocks, More(RBrace, rest)), store) ==
            Parsed(Good, store.(fs := Run(store.fs, BlockOps(blocks))), rest)
    decreases |blocks|
  {
    hide ParseFields, FieldsThen, FieldOps, IndexOf, Added;
    if blocks != [] {
      var b := blocks[0];
      var more := FsBlocksThen(blocks[1..], More(RBrace, rest));
      var entered := store.(fs := Added(store.fs, b.path, EMPTY, EMPTY));
      Opened(store.fs, b.path);
      FieldsRead(b.fields, more, entered, b.path);
      var ops := [Open(b.path)] + FieldOps(b.path, b.fields);
      assert ops[1..] == FieldOps(b.path, b.fields);
      assert Run(store.fs, ops) == Run(entered.fs, FieldOps(b.path, b.fields));
      RunConcat(store.fs, ops, BlockOps(blocks[1..]));
      FsBlocksRead(blocks[1..], rest, store.(fs := Run(store.fs, ops)));
    }
  }

  lemma {:induction false} OneModeRead(mode: ExecMode, rest: Stream, store: Store, index: nat)
    requires index < |store.exec|
    ensures var next := store.(exec := store.exec[index := store.exec[index].(mode := mode)]);
            ParseFields(Exec, More(Identifier("mode"), More(Identifier(ModeWord(mode)), rest)), store, index) ==
            ParseFields(Exec, rest, next, index)
  {
    hide ModeWord, VerdictOf;
    ModeWordRead(mode);
    assert |"mode"| < ID_MAX;
  }

  lemma {:induction false} ModeWordRead(mode: ExecMode)
    ensures VerdictOf(ModeWord(mode)).Some? && ExecModeOf(VerdictOf(ModeWord(mode)).value) == mode
  {
  }

  lemma {:induction false} ModesRead(modes: seq<ExecMode>, rest: Stream, store: Store, index: nat)
    requires index < |store.exec|
    ensures var e := store.exec[index];
            var last := if modes == [] then e.mode else modes[|modes| - 1];
            ParseFields(Exec, ModesThen(modes, More(RBrace, rest)), store, index) ==
            Parsed(Good, store.(exec := store.exec[index := e.(mode := last)]), rest)
    decreases |modes|
  {
    hide ParseFields, ModeWord;
    if modes == [] {
      NoModeRead(rest, store, index);
      assert store.exec[index := store.exec[index]] == store.exec;
    } else {
      var e, last := store.exec[index], modes[|modes| - 1];
      var next := store.(exec := store.exec[index := e.(mode := modes[0])]);
      OneModeRead(modes[0], ModesThen(modes[1..], More(RBrace, rest)), store, index);
      ModesRead(modes[1..], rest, next, index);
      assert next.exec[index := e.(mode := last)] == store.exec[index := e.(mode := last)];
    }
  }

  lemma {:induction false} NoModeRead(rest: Stream, store: Store, index: nat)
    requires index < |store.exec|
    ensures ParseFields(Exec, More(RBrace, rest), store, index) == Parsed(Good, store, rest)
  {
  }

  lemma {:induction false} ExecBlocksRead(blocks: seq<ExecBlock>, rest: Stream, store: Store)
    requires HashKeys(blocks)
    ensures ParseEntries(Exec, ExecBlocksThen(blocks, More(RBrace, rest)), store) ==
            Parsed(Good, store.(exec := store.exec + ExecsOf(blocks, store.defaultMode)), rest)
    decreases |blocks|
  {
    hide ParseFields, ModesThen, ReadHash;
    if blocks == [] {
      assert store.exec + [] == store.exec;
    } else {
      var b := blocks[0];
      var more := ExecBlocksThen(blocks[1..], More(RBrace, rest));
      var entered := store.(exec := store.exec + [ExecEntry(store.defaultMode, ReadHash(b.key).value)]);
      ModesRead(b.modes, more, entered, |store.exec|);
      var e := ExecsOf(blocks, store.defaultMode)[0];
      assert entered.exec[|store.exec| := e] == store.exec + [e];
      ExecBlocksRead(blocks[1..], rest, store.(exec := store.exec + [e]));
      assert store.exec + [e] + ExecsOf(blocks[1..], store.defaultMode) ==
             store.exec + ExecsOf(blocks, store.defaultMode);
    }
  }

  lemma {:induction false} SectionRead(s: Section, rest: Stream, store: Store)
    requires SoundSection(s)
    ensures ParseResource(SectionThen(s, rest), store) == Parsed(Good, SectionMeans(s, store), rest)
  {
    hide ParseEntries, FsBlocksThen, ExecBlocksThen, Run;
    match s
    case FsSection(blocks) => FsBlocksRead(blocks, rest, store);
    case ExecSection(blocks) => ExecBlocksRead(blocks, rest, store);
  }

  lemma {:induction false} PolicyIsRead(policy: seq<Section>, store: Store)
    requires Sound(policy)
    ensures ParseAll(PolicyTokens(policy), store) == Parsed(Good, Means(policy, store), End)
    decreases |policy|
  {
    hide ParseResource, SectionThen, SectionMeans;
    if policy != [] {
      SectionRead(policy[0], PolicyTokens(policy[1..]), store);
      SectionStarts(policy[0], PolicyTokens(policy[1..]));
      PolicyIsRead(policy[1..], SectionMeans(policy[0], store));
    }
  }

  lemma {:induction false} SectionStarts(s: Section, rest: Stream)
    requires SoundSection(s)
    ensures SectionThen(s, rest).More?
  {
  }

  // ---------- nothing else is read to the end ----------

  lemma {:induction false} FlagsWritten(ts: Stream, store: Store, index: nat, scope: Scope, verdict: Verdict)
    returns (flags: seq<Bit>)
    requires index < |store.fs| && ParseFlags(ts, store, index, scope, verdict).status == Good
    ensures var r := ParseFlags(ts, store, index, scope, verdict);
            KnownFlags(flags) && ts == FlagsThen(flags, r.rest)
    decreases ts
  {
    flags := [];
    if ts.More? && ts.token.Text? {
      var bit := FlagOf(ts.token.text).value;
      var more := FlagsWritten(ts.rest, SetFsField(store, index, scope, verdict, {bit}), index, scope, verdict);
      flags := [bit] + more;
      assert flags[1..] == more;
    }
  }

  lemma {:induction false} WordOf(text: string)
    requires VerdictOf(text).Some?
    ensures ActionName(VerdictOf(text).value) == text && ModeWord(ExecModeOf(VerdictOf(text).value)) == text
  {
  }

  lemma {:induction false} FieldsWritten(ts: Stream, store: Store, index: nat) returns (fields: seq<FsField>)
    requires index < |store.fs| && ParseFields(Filesystem, ts, store, index).status == Good
    ensures SoundFields(fields)
    ensures ts == FieldsThen(fields, More(RBrace, ParseFields(Filesystem, ts, store, index).rest))
    decreases Length(ts)
  {
    hide ParseFlags, FlagsThen, VerdictOf, ActionName;
    fields := [];
    if ts.token != RBrace {
      var scope := if ts.token.text == "self" then Self else Children;
      var value := ts.rest;
      var verdict := VerdictOf(value.token.text).value;
      var r := ParseFsField(value, store, index, ts.token.text);
      WordOf(value.token.text);
      var flags := FlagsWritten(value.rest, store, index, scope, verdict);
      var more := FieldsWritten(r.rest, r.store, index);
      fields := [FsField(scope, verdict, flags)] + more;
      assert fields[1..] == more;
    }
  }

  lemma {:induction false} FsBlocksWritten(ts: Stream, store: Store) returns (blocks: seq<FsBlock>)
    requires ParseEntries(Filesystem, ts, store).status == Good
    ensures SoundFsBlocks(blocks)
    ensures ts == FsBlocksThen(blocks, More(RBrace, ParseEntries(Filesystem, ts, store).rest))
    decreases Length(ts)
  {
    hide ParseFields, FieldsThen, SoundFields;
    blocks := [];
    if ts.token != RBrace {
      var Entered(store', index) := OpenEntry(Filesystem, store, ts.token.text);
      var fields := FieldsWritten(ts.rest.rest, store', index);
      var r := ParseFields(Filesystem, ts.rest.rest, store', index);
      assert Length(ts) == 2 + Length(ts.rest.rest);
      var more := FsBlocksWritten(r.rest, r.store);
      blocks := [FsBlock(ts.token.text, fields)] + more;
      assert blocks[1..] == more;
    }
  }

  lemma {:induction false} ModesWritten(ts: Stream, store: Store, index: nat) returns (modes: seq<ExecMode>)
    requires index < |store.exec| && ParseFields(Exec, ts, store, index).status == Good
    ensures ts == ModesThen(modes, More(RBrace, ParseFields(Exec, ts, store, index).rest))
    decreases Length(ts)
  {
    hide VerdictOf, ModeWord;
    modes := [];
    if ts.token != RBrace {
      var r := ParseExecField(ts.rest, store, index, ts.token.text);
      WordOf(ts.rest.token.text);
      var more := ModesWritten(r.rest, r.store, index);
      modes := [ExecModeOf(VerdictOf(ts.rest.token.text).value)] + more;
      assert modes[1..] == more;
    }
  }

  lemma {:induction false} ExecBlocksWritten(ts: Stream, store: Store) returns (blocks: seq<ExecBlock>)
    requires ParseEntries(Exec, ts, store).status == Good
    ensures HashKeys(blocks)
    ensures ts == ExecBlocksThen(blocks, More(RBrace, ParseEntries(Exec, ts, store).rest))
    decreases Length(ts)
  {
    hide ParseFields, ModesThen, ReadHash;
    blocks := [];
    if ts.token != RBrace {
      var Entered(store', index) := OpenEntry(Exec, store, ts.token.text);
      var modes := ModesWritten(ts.rest.rest, store', index);
      var r := ParseFields(Exec, ts.rest.rest, store', index);
      assert Length(ts) == 2 + Length(ts.rest.rest);
      var more := ExecBlocksWritten(r.rest, r.store);
      blocks := [ExecBlock(ts.token.text, modes)] + more;
      assert blocks[1..] == more;
    }
  }

  lemma {:induction false} SectionWritten(ts: Stream, store: Store) returns (s: Section)
    requires ts.More? && ParseResource(ts, store).status == Good
    ensures SoundSection(s) && ts == SectionThen(s, ParseResource(ts, store).rest)
  {
    hide ParseEntries, SoundFsBlocks, HashKeys, FsBlocksThen, ExecBlocksThen;
    var inside := ts.rest.rest.rest;
    if ts.token.text == "filesystem" {
      var blocks := FsBlocksWritten(inside, store);
      s := FsSection(blocks);
    } else {
      var blocks := ExecBlocksWritten(inside, store);
      s := ExecSection(blocks);
    }
  }

  lemma {:induction false} PolicyWritten(ts: Stream, store: Store) returns (policy: seq<Section>)
    requires ParseAll(ts, store).status == Good
    ensures Sound(policy) && ts == PolicyTokens(policy)
    decreases Length(ts)
  {
    hide ParseResource, SectionThen, SoundSection;
    policy := [];
    if ts.More? {
      var s := SectionWritten(ts, store);
      var r := ParseResource(ts, store);
      var more := PolicyWritten(r.rest, r.store);
      policy := [s] + more;
      assert policy[1..] == more;
    }
  }

  /** A file can be loaded if and only if its tokens are those of a policy; then what it makes of the
      store is what the policy means. */
  lemma {:induction false} LoadsIff(text: string, store: Store)
    ensures Load(text, store).status == Good <==> exists policy :: Sound(policy) && Lex(text) == PolicyTokens(policy)
    ensures forall policy | Sound(policy) && Lex(text) == PolicyTokens(policy) ::
              Load(text, store) == Parsed(Good, Means(policy, store), End)
  {
    hide ParseAll, PolicyTokens, Means, Lex, Sound;
    forall policy | Sound(policy) && Lex(text) == PolicyTokens(policy)
      ensures Load(text, store) == Parsed(Good, Means(policy, store), End)
    {
      PolicyIsRead(policy, store);
    }
    if Load(text, store).status == Good {
      var policy := PolicyWritten(Lex(text), store);
    }
  }

  // ---------- command line entries in a file ----------

  /** The entries of all command line sections. */
  function AllExecs(policy: seq<Section>, byDefault: ExecMode): seq<ExecEntry>
    requires Sound(policy)
  {
    if policy == [] then []
    else (if policy[0].ExecSection? then ExecsOf(policy[0].exec, byDefault) else []) + AllExecs(policy[1..], byDefault)
  }

  lemma {:induction false} MeansExecs(policy: seq<Section>, store: Store)
    requires Sound(policy)
    ensures Means(policy, store).exec == store.exec + AllExecs(policy, store.defaultMode)
    ensures Means(policy, store).defaultMode == store.defaultMode
    decreases |policy|
  {
    hide ExecsOf, Run, BlockOps;
    if policy != [] {
      MeansExecs(policy[1..], SectionMeans(policy[0], store));
    }
  }

  /** What the first entry of a program in a file says, is what the gate does after every run: `reject`
      forbids it in silence, `accept` lets it run in silence, `prompt` asks; and so does the default
      where the entry has no mode. */
  lemma {:induction false} FirstInFileDecides(text: string, policy: seq<Section>, byDefault: ExecMode, hash: Digest,
                                              ops: seq<ExecOp>, caller: Caller)
    requires Sound(policy) && Lex(text) == PolicyTokens(policy)
    requires TryGet(AllExecs(policy, byDefault), hash).Some?
    ensures var now := ExecRun(Load(text, Store([], [], byDefault)).store.exec, byDefault, ops);
            var r := ExecGate(now, byDefault, hash, caller);
            match TryGet(AllExecs(policy, byDefault), hash).value.mode
            case ExecAccept => r == Gated(now, Granted, false)
            case ExecReject => r == Gated(now, RejectedPolicy, false)
            case ExecPrompt => r.prompted <==> caller.fits
  {
    hide Lex, PolicyTokens, Means, AllExecs, Sound, Load, TryGet;
    LoadsIff(text, Store([], [], byDefault));
    MeansExecs(policy, Store([], [], byDefault));
    var first := AllExecs(policy, byDefault);
    assert [] + first == first;
    RunAppends(first, byDefault, ops);
    FirstStays(first, ExecRun(first, byDefault, ops), hash);
  }
}
