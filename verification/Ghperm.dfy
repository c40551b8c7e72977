/** The permission store file: what parsing and writing do to a store
    (parser.c, permfs.c, permexec.c and writer.c under src/ghost/perms). */
module Ghperm {
  import opened Basics
  import opened Memory
  import opened GhpermLexer
  import opened GhpermText
  import opened PermFs

  // ---------- the store ----------

  const DIGEST_LENGTH: nat := 32

  datatype ExecMode = ExecAccept | ExecReject | ExecPrompt

  type Digest = d: seq<Byte> | |d| == DIGEST_LENGTH witness seq(DIGEST_LENGTH, _ => 0)

  datatype ExecEntry = ExecEntry(mode: ExecMode, hash: Digest)

  datatype Store = Store(fs: seq<Entry>, exec: seq<ExecEntry>, defaultMode: ExecMode)

  /** Names of the mode flags, by bit position (intermediate/gh_permfs_mode.csv). */
  const FLAGS: seq<string> := [
    "createfile", "createdir", "access.u+r", "access.u+w", "access.u+x", "access.g+r", "access.g+w", "access.g+x",
    "access.o+r", "access.o+w", "access.o+x", "read", "write", "unlink", "move"]

  const FLAG_COUNT: nat := 15

  function FlagFrom(s: string, b: Bit): (r: Option<Bit>)
    requires b <= FLAG_COUNT
    ensures r.Some? ==> b <= r.value < FLAG_COUNT && FLAGS[r.value] == s
    ensures r.None? ==> forall i | b <= i < FLAG_COUNT :: FLAGS[i] != s
    decreases FLAG_COUNT - b
  {
    if b == FLAG_COUNT then None else if FLAGS[b] == s then Some(b) else FlagFrom(s, b + 1)
  }

  /** `gh_permfs_mode_fromident`; the name `none` is not a flag. */
  function FlagOf(s: string): (r: Option<Bit>)
    ensures r.Some? ==> r.value < FLAG_COUNT && FLAGS[r.value] == s
    ensures r.None? ==> forall i | 0 <= i < FLAG_COUNT :: FLAGS[i] != s
  {
    FlagFrom(s, 0)
  }

  /** `gh_permfs_mode_ident` */
  function FlagName(b: Bit): string
    requires b < FLAG_COUNT
  {
    FLAGS[b]
  }

  lemma {:induction false} FlagsDiffer(i: nat, j: nat)
    requires i < j < FLAG_COUNT
    ensures FLAGS[i] != FLAGS[j]
  {
  }

  /** The names and the flags are in bijection. */
  lemma {:induction false} FlagOfName(b: Bit)
    requires b < FLAG_COUNT
    ensures FlagOf(FlagName(b)) == Some(b)
  {
    var r := FlagOf(FlagName(b));
    if r.value < b { FlagsDiffer(r.value, b); }
    if b < r.value { FlagsDiffer(b, r.value); }
  }

  // ---------- hexadecimal hashes ----------

  /** `hex_tonibbles`, one half. */
  function NibbleChar(n: nat): char
    requires n < 16
  {
    if n >= 10 then ('a' as int + (n - 10)) as char else ('0' as int + n) as char
  }

  /** `hex_fromnibble` */
  function NibbleOf(c: char): (r: Option<nat>)
    ensures r.Some? ==> r.value < 16
  {
    if 'A' <= c <= 'F' then Some(c as int - 'A' as int + 10)
    else if 'a' <= c <= 'f' then Some(c as int - 'a' as int + 10)
    else if '0' <= c <= '9' then Some(c as int - '0' as int)
    else None
  }

  function Hex(bs: seq<Byte>): (s: string)
    ensures |s| == 2 * |bs|
    ensures forall c | c in s :: Plain(c)
  {
    if bs == [] then "" else [NibbleChar(bs[0] / 16), NibbleChar(bs[0] % 16)] + Hex(bs[1..])
  }

  function Unhex(s: string): (r: Option<seq<Byte>>)
    ensures r.Some? ==> 2 * |r.value| == |s|
  {
    if s == "" then Some([])
    else if |s| == 1 || NibbleOf(s[0]).None? || NibbleOf(s[1]).None? then None
    else
      var rest := Unhex(s[2..]);
      if rest.None? then None else Some([NibbleOf(s[0]).value * 16 + NibbleOf(s[1]).value] + rest.value)
  }

  lemma {:induction false} NibbleRoundTrip(n: nat)
    requires n < 16
    ensures NibbleOf(NibbleChar(n)) == Some(n)
  {
  }

  const LOWER: string := "0123456789abcdef"
  const UPPER: string := "0123456789ABCDEF"

  /** Digits are read in either case. */
  lemma {:induction false} NibbleOfIff(c: char, n: nat)
    requires n < 16
    ensures NibbleOf(c) == Some(n) <==> c == LOWER[n] || c == UPPER[n]
  {
  }

  lemma {:induction false} UnhexHex(bs: seq<Byte>)
    ensures Unhex(Hex(bs)) == Some(bs)
  {
    if bs != [] {
      UnhexHex(bs[1..]);
      NibbleRoundTrip(bs[0] / 16);
      NibbleRoundTrip(bs[0] % 16);
      var s := Hex(bs);
      assert s[0] == NibbleChar(bs[0] / 16) && s[1] == NibbleChar(bs[0] % 16) && s[2..] == Hex(bs[1..]);
      assert bs == [bs[0]] + bs[1..];
    }
  }

  /** `permexec_readhash` */
  function ReadHash(s: string): (r: Option<seq<Byte>>)
    ensures r.Some? ==> |r.value| == DIGEST_LENGTH
  {
    if |s| != 2 * DIGEST_LENGTH then None else Unhex(s)
  }

  // ---------- parsing ----------

  const ID_MAX: nat := 64

  datatype ParseStatus =
    | Good | Lexical(error: LexError)
    | ExpectedGroupId | LargeGroupId | ExpectedResourceId | LargeResourceId | ExpectedResourceBegin | UnknownResource
    | ExpectedEntry | ExpectedEntryBegin | ExpectedEntryEnd | ExpectedField | LargeField
    | ExpectedIdentifier | ResourceError | UnknownField | NotHash

  datatype Resource = Filesystem | Exec

  datatype Parsed = Parsed(status: ParseStatus, store: Store, rest: Stream)

  function Length(ts: Stream): nat {
    if ts.More? then 1 + Length(ts.rest) else 0
  }

  function VerdictOf(s: string): Option<Verdict> {
    if s == "accept" then Some(AcceptFlag)
    else if s == "reject" then Some(RejectFlag)
    else if s == "prompt" then Some(PromptFlag)
    else None
  }

  function SetFsField(store: Store, index: nat, scope: Scope, verdict: Verdict, bits: Mode): (r: Store)
    requires index < |store.fs|
    ensures |r.fs| == |store.fs|
  {
    store.(fs := store.fs[index := SetField(store.fs[index], scope, verdict, bits)])
  }

  /** The argument loop of `permfsparser_setfield`. */
  function ParseFlags(ts: Stream, store: Store, index: nat, scope: Scope, verdict: Verdict): (r: Parsed)
    requires index < |store.fs|
    ensures Length(r.rest) <= Length(ts) && |r.store.fs| == |store.fs|
    decreases ts
  {
    match ts
    case Broken(e) => Parsed(Lexical(e), store, ts)
    case End => Parsed(Good, store, ts)
    case More(t, rest) =>
      if !t.Text? then Parsed(Good, store, ts)
      else
        var flag := FlagOf(t.text);
        if flag.None? then Parsed(ResourceError, store, rest)
        else ParseFlags(rest, SetFsField(store, index, scope, verdict, {flag.value}), index, scope, verdict)
  }

  /** `permfsparser_setfield` */
  function ParseFsField(ts: Stream, store: Store, index: nat, field: string): (r: Parsed)
    requires index < |store.fs|
    ensures Length(r.rest) <= Length(ts) && |r.store.fs| == |store.fs|
  {
    if field != "self" && field != "children" then Parsed(UnknownField, store, ts)
    else match ts
      case Broken(e) => Parsed(Lexical(e), store, ts)
      case End => Parsed(ExpectedIdentifier, store, ts)
      case More(t, rest) =>
        if !t.Identifier? then Parsed(ExpectedIdentifier, store, ts)
        else
          var verdict := VerdictOf(t.text);
          if verdict.None? then Parsed(ResourceError, store, rest)
          else ParseFlags(rest, store, index, if field == "self" then Self else Children, verdict.value)
  }

  function ExecModeOf(v: Verdict): ExecMode {
    match v
    case AcceptFlag => ExecAccept
    case RejectFlag => ExecReject
    case PromptFlag => ExecPrompt
  }

  /** `permexecparser_setfield` */
  function ParseExecField(ts: Stream, store: Store, index: nat, field: string): (r: Parsed)
    requires index < |store.exec|
    ensures Length(r.rest) <= Length(ts) && |r.store.exec| == |store.exec|
  {
    if field != "mode" then Parsed(UnknownField, store, ts)
    else match ts
      case Broken(e) => Parsed(Lexical(e), store, ts)
      case End => Parsed(ExpectedIdentifier, store, ts)
      case More(t, rest) =>
        if !t.Identifier? then Parsed(ExpectedIdentifier, store, ts)
        else
          var verdict := VerdictOf(t.text);
          if verdict.None? then Parsed(ResourceError, store, rest)
          else
            var e := store.exec[index].(mode := ExecModeOf(verdict.value));
            Parsed(Good, store.(exec := store.exec[index := e]), rest)
  }

  predicate Indexes(resource: Resource, store: Store, index: nat) {
    match resource
    case Filesystem => index < |store.fs|
    case Exec => index < |store.exec|
  }

  /** The fields of an entry, up to its closing brace. */
  function ParseFields(resource: Resource, ts: Stream, store: Store, index: nat): (r: Parsed)
    requires Indexes(resource, store, index)
    ensures r.status == Good ==> Length(r.rest) < Length(ts)
    decreases Length(ts)
  {
    match ts
    case Broken(e) => Parsed(Lexical(e), store, ts)
    case End => Parsed(ExpectedEntryEnd, store, ts)
    case More(t, rest) =>
      if t == RBrace then Parsed(Good, store, rest)
      else if !t.Identifier? then Parsed(ExpectedField, store, rest)
      else if |t.text| >= ID_MAX then Parsed(LargeField, store, rest)
      else
        var r := match resource
          case Filesystem => ParseFsField(rest, store, index, t.text)
          case Exec => ParseExecField(rest, store, index, t.text);
        if r.status != Good then r else ParseFields(resource, r.rest, r.store, index)
  }

  /** The store with a new entry, and the entry's index. */
  datatype Entered = Entered(store: Store, index: nat) | NoHash

  /** The `newentry` callbacks. */
  function OpenEntry(resource: Resource, store: Store, key: string): (r: Entered)
    ensures r.Entered? ==> Indexes(resource, r.store, r.index)
  {
    match resource
    case Filesystem => Entered(store.(fs := Added(store.fs, key, EMPTY, EMPTY)), IndexOf(store.fs, key))
    case Exec =>
      var hash := ReadHash(key);
      if hash.None? then NoHash
      else Entered(store.(exec := store.exec + [ExecEntry(store.defaultMode, hash.value)]), |store.exec|)
  }

  /** The entries of a resource, up to its closing brace. */
  function ParseEntries(resource: Resource, ts: Stream, store: Store): (r: Parsed)
    ensures r.status == Good ==> Length(r.rest) < Length(ts)
    decreases Length(ts)
  {
    match ts
    case Broken(e) => Parsed(Lexical(e), store, ts)
    case End => Parsed(ExpectedEntry, store, ts)
    case More(t, rest) =>
      if t == RBrace then Parsed(Good, store, rest)
      else if !t.Text? then Parsed(ExpectedEntry, store, rest)
      else
        var entered := OpenEntry(resource, store, t.text);
        if entered.NoHash? then Parsed(NotHash, store, rest)
        else
          var Entered(store', index) := entered;
          if rest.Broken? then Parsed(Lexical(rest.error), store', rest)
          else if rest.End? || rest.token != LBrace then Parsed(ExpectedEntryBegin, store', rest)
          else
            var r := ParseFields(resource, rest.rest, store', index);
            assert Length(rest) == 1 + Length(rest.rest);
            if r.status != Good then r else ParseEntries(resource, r.rest, r.store)
  }

  function ResourceOf(group: string, resource: string): Option<Resource> {
    if group == "filesystem" && resource == "node" then Some(Filesystem)
    else if group == "exec" && resource == "cmdline" then Some(Exec)
    else None
  }

  /** `permparser_parsenextresource`, when there is a token left. */
  function ParseResource(ts: Stream, store: Store): (r: Parsed)
    requires ts.More?
    ensures r.status == Good ==> Length(r.rest) < Length(ts)
  {
    if !ts.token.Identifier? then Parsed(ExpectedGroupId, store, ts)
    else if |ts.token.text| >= ID_MAX then Parsed(LargeGroupId, store, ts)
    else match ts.rest
      case Broken(e) => Parsed(Lexical(e), store, ts.rest)
      case End => Parsed(ExpectedResourceId, store, ts.rest)
      case More(t, rest) =>
        if !t.Identifier? then Parsed(ExpectedResourceId, store, rest)
        else if |t.text| >= ID_MAX then Parsed(LargeResourceId, store, rest)
        else if rest.Broken? then Parsed(Lexical(rest.error), store, rest)
        else if rest.End? || rest.token != LBrace then Parsed(ExpectedResourceBegin, store, rest)
        else
          var resource := ResourceOf(ts.token.text, t.text);
          if resource.None? then Parsed(UnknownResource, store, rest)
          else
            assert Length(rest) == 1 + Length(rest.rest);
            ParseEntries(resource.value, rest.rest, store)
  }

  /** `gh_permparser_parse` */
  function ParseAll(ts: Stream, store: Store): Parsed
    decreases Length(ts)
  {
    match ts
    case Broken(e) => Parsed(Lexical(e), store, ts)
    case End => Parsed(Good, store, ts)
    case More(_, _) =>
      var r := ParseResource(ts, store);
      if r.status != Good then r else ParseAll(r.rest, r.store)
  }

  // ---------- writing ----------

  /** The set bits from `b` on, lowest first, as `gh_permfs_nextmodeflag` hands them out. */
  function BitsFrom(mode: Mode, b: nat): (r: seq<Bit>)
    requires b <= 32
    ensures forall i | 0 <= i < |r| :: r[i] in mode && b <= r[i]
    ensures forall x | x in mode && b <= x :: x in r
    decreases 32 - b, mode
  {
    if b == 32 then [] else (if b in mode then [b] else []) + BitsFrom(mode, b + 1)
  }

  function BitSet(bits: seq<Bit>): Mode {
    set b | b in bits
  }

  /** All the set bits, lowest first. */
  function Bits(mode: Mode): (r: seq<Bit>)
    ensures forall i | 0 <= i < |r| :: r[i] in mode
    ensures BitSet(r) == mode
    ensures mode == {} <==> r == []
  {
    var r := BitsFrom(mode, 0);
    assert forall x | x in mode :: x in r;
    assert r != [] ==> r[0] in mode;
    r
  }

  predicate KnownBits(mode: Mode) {
    forall b | b in mode :: b < FLAG_COUNT
  }

  predicate KnownModes(modes: ModeSet) {
    KnownBits(modes.reject) && KnownBits(modes.accept) && KnownBits(modes.prompt)
  }

  predicate KnownFlags(bits: seq<Bit>) {
    forall i | 0 <= i < |bits| :: bits[i] < FLAG_COUNT
  }

  function FlagItems(bits: seq<Bit>): seq<Item>
    requires KnownFlags(bits)
  {
    if bits == [] then [] else [Space(" "), Quoted(FlagName(bits[0]))] + FlagItems(bits[1..])
  }

  function ActionName(verdict: Verdict): string {
    match verdict
    case AcceptFlag => "accept"
    case RejectFlag => "reject"
    case PromptFlag => "prompt"
  }

  function ScopeName(scope: Scope): string {
    match scope
    case Self => "self"
    case Children => "children"
  }

  const ONE_INDENT: string := "    "
  const TWO_INDENTS: string := "        "

  function Break(first: bool): seq<Item> {
    if first then [] else [Space("\n")]
  }

  function FieldHead(scope: Scope, verdict: Verdict): seq<Item> {
    [Space(TWO_INDENTS), Word(ScopeName(scope)), Space(" "), Word(ActionName(verdict))]
  }

  /** One field line, without the line break that ends it (`permfs_writemode`). */
  function ModeItems(first: bool, scope: Scope, verdict: Verdict, mode: Mode): seq<Item>
    requires KnownBits(mode)
  {
    if mode == {} then []
    else Break(first) + FieldHead(scope, verdict) + FlagItems(Bits(mode))
  }

  /** `permfs_writemodeset` */
  function ModeSetItems(first: bool, scope: Scope, modes: ModeSet): seq<Item>
    requires KnownModes(modes)
  {
    ModeItems(first, scope, AcceptFlag, modes.accept) +
    ModeItems(first && modes.accept == {}, scope, RejectFlag, modes.reject) +
    ModeItems(first && modes.accept == {} && modes.reject == {}, scope, PromptFlag, modes.prompt)
  }

  function EntryHead(key: string): seq<Item> {
    [Space(ONE_INDENT), Quoted(key), Space(" "), Item.Open, Space("\n")]
  }

  /** The brace that ends a resource or an entry. */
  function Ending(indent: string): seq<Item> {
    [Space(indent), Close, Space("\n")]
  }

  function EntryItems(e: Entry): seq<Item>
    requires KnownModes(e.self) && KnownModes(e.children)
  {
    EntryHead(e.path) +
    ModeSetItems(true, Self, e.self) +
    ModeSetItems(e.self == EMPTY, Children, e.children) +
    Break(e.self == EMPTY && e.children == EMPTY) +
    Ending(ONE_INDENT)
  }

  predicate KnownEntries(entries: seq<Entry>) {
    forall e | e in entries :: KnownModes(e.self) && KnownModes(e.children)
  }

  function EntriesItems(entries: seq<Entry>): seq<Item>
    requires KnownEntries(entries)
  {
    if entries == [] then []
    else EntriesItems(entries[..|entries| - 1]) + EntryItems(entries[|entries| - 1])
  }

  /** A `reject` or `prompt` mode is written as a string. */
  function ExecModeItem(mode: ExecMode): Item {
    match mode
    case ExecAccept => Word("accept")
    case ExecReject => Quoted("reject")
    case ExecPrompt => Quoted("prompt")
  }

  function ExecItems(e: ExecEntry): seq<Item> {
    EntryHead(Hex(e.hash)) + [Space(TWO_INDENTS), Word("mode"), Space(" "), ExecModeItem(e.mode),
        Space("\n")] + Ending(ONE_INDENT)
  }

  function ExecsItems(entries: seq<ExecEntry>): seq<Item> {
    if entries == [] then [] else ExecsItems(entries[..|entries| - 1]) + ExecItems(entries[|entries| - 1])
  }

  function ResourceHead(group: string, resource: string): seq<Item> {
    [Space(""), Word(group), Space(" "), Word(resource), Space(" "), Item.Open, Space("\n")]
  }

  function ResourceItems(group: string, resource: string, entries: seq<Item>): seq<Item> {
    ResourceHead(group, resource) + entries + Ending("")
  }

  /** The whole file. */
  function FileItems(store: Store): seq<Item>
    requires KnownEntries(store.fs)
  {
    ResourceItems("filesystem", "node", EntriesItems(store.fs)) + ResourceItems("exec", "cmdline",
        ExecsItems(store.exec))
  }

  /** Text of the file, when every set bit has a name. */
  function Written(store: Store): Option<string> {
    if KnownEntries(store.fs) then Some(Render(FileItems(store))) else None
  }

  /** What loading a file into a store ends with. */
  function Load(text: string, store: Store): Parsed {
    ParseAll(Lex(text), store)
  }
}
