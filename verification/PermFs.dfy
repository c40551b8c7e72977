/** The filesystem permission engine (src/ghost/perms/permfs.c). */
module PermFs {
  import opened Basics
  import opened Paths

  /** A mode word is the set of the positions of its set bits. */
  type Bit = b: nat | b < 32
  type Mode = set<Bit>

  datatype ModeSet = ModeSet(reject: Mode, accept: Mode, prompt: Mode)

  const EMPTY: ModeSet := ModeSet({}, {}, {})

  datatype Entry = Entry(path: string, self: ModeSet, children: ModeSet)

  function Join(a: ModeSet, b: ModeSet): ModeSet {
    ModeSet(a.reject + b.reject, a.accept + b.accept, a.prompt + b.prompt)
  }

  ghost predicate Within(a: ModeSet, b: ModeSet) {
    a.reject <= b.reject && a.accept <= b.accept && a.prompt <= b.prompt
  }

  // ---------- the entry list ----------

  /** Index of the first entry for `path`, or the number of entries. */
  function IndexOf(entries: seq<Entry>, path: string): (i: nat)
    ensures i <= |entries|
    ensures i < |entries| ==> entries[i].path == path
    ensures forall j | 0 <= j < i :: entries[j].path != path
  {
    if entries == [] then 0 else if entries[0].path == path then 0 else 1 + IndexOf(entries[1..], path)
  }

  /** `gh_permfs_add`: the flags for children of an entry that is already there
      are merged into the flags for the entry itself. */
  function Added(entries: seq<Entry>, path: string, self: ModeSet, children: ModeSet): seq<Entry> {
    var i := IndexOf(entries, path);
    if i < |entries| then entries[i := entries[i].(self := Join(Join(entries[i].self, self), children))]
    else entries + [Entry(path, self, children)]
  }

  ghost predicate Distinct(entries: seq<Entry>) {
    forall i, j | 0 <= i < j < |entries| :: entries[i].path != entries[j].path
  }

  // ---------- modes of a path ----------

  datatype PathModes = PathModes(self: ModeSet, children: ModeSet)

  /** `gh_permfs_getmode`, from the first entry to the last. */
  function Modes(entries: seq<Entry>, path: string): PathModes {
    if entries == [] then PathModes(EMPTY, EMPTY)
    else
      var p := Modes(entries[..|entries| - 1], path);
      var e := entries[|entries| - 1];
      if Exact(e.path, path) then PathModes(Join(p.self, e.self), Join(p.children, e.children))
      else if Below(e.path, path) then PathModes(Join(p.self, e.children), Join(Join(p.self, e.children), e.children))
      else p
  }

  /** What the entries for the path itself say about it. */
  ghost function OwnSelf(entries: seq<Entry>, path: string): ModeSet {
    if entries == [] then EMPTY
    else
      var p, e := OwnSelf(entries[..|entries| - 1], path), entries[|entries| - 1];
      if e.path == path then Join(p, e.self) else p
  }

  ghost function OwnChildren(entries: seq<Entry>, path: string): ModeSet {
    if entries == [] then EMPTY
    else
      var p, e := OwnChildren(entries[..|entries| - 1], path), entries[|entries| - 1];
      if e.path == path then Join(p, e.children) else p
  }

  /** What the entries for ancestor directories say about what is in them. */
  ghost function Inherited(entries: seq<Entry>, path: string): ModeSet {
    if entries == [] then EMPTY
    else
      var p, e := Inherited(entries[..|entries| - 1], path), entries[|entries| - 1];
      if Below(e.path, path) then Join(p, e.children) else p
  }

  ghost predicate CStrings(entries: seq<Entry>, path: string) {
    NUL !in path && forall e | e in entries :: NUL !in e.path
  }

  /** The path's own entry stands before the entry of an ancestor. */
  ghost predicate AncestorFollows(entries: seq<Entry>, path: string) {
    exists i, j | 0 <= i < j < |entries| :: entries[i].path == path && Below(entries[j].path, path)
  }

  lemma {:induction false} NotBelowItself(path: string)
    requires NUL !in path
    ensures Exact(path, path) && !Below(path, path)
  {
    ExactMeaning(path, path);
    BelowMeaning(path, path);
  }

  lemma {:induction false} NoOwnEntry(entries: seq<Entry>, path: string)
    requires forall e | e in entries :: e.path != path
    ensures OwnSelf(entries, path) == OwnChildren(entries, path) == EMPTY
  {
    if entries != [] {
      assert entries[|entries| - 1] in entries;
      NoOwnEntry(entries[..|entries| - 1], path);
    }
  }

  /** For the path itself: what its own entry grants, and what every ancestor
      directory grants to what is in it. */
  lemma {:induction false} ModesForSelf(entries: seq<Entry>, path: string)
    requires CStrings(entries, path)
    ensures Modes(entries, path).self == Join(OwnSelf(entries, path), Inherited(entries, path))
  {
    if entries != [] {
      ModesForSelf(entries[..|entries| - 1], path);
      assert entries[|entries| - 1] in entries;
      ExactMeaning(entries[|entries| - 1].path, path);
      NotBelowItself(path);
    }
  }

  /** For children of the path: an ancestor entry behind the path's own entry puts
      what that entry says of the path itself in the place of what it says of children. */
  lemma {:induction false} ModesForChildren(entries: seq<Entry>, path: string)
    requires CStrings(entries, path) && Distinct(entries)
    ensures Modes(entries, path).children ==
            Join(if AncestorFollows(entries, path) then OwnSelf(entries, path) else OwnChildren(entries, path),
                 Inherited(entries, path))
  {
    hide AncestorFollows, Distinct, Exact, Below;
    if entries != [] {
      var last := |entries| - 1;
      var front, e := entries[..last], entries[last];
      FrontIsSound(entries, path);
      ModesForChildren(front, path);
      ModesForSelf(front, path);
      ExactMeaning(e.path, path);
      NotBelowItself(path);
      if e.path == path {
        OwnIsLast(entries, path);
      } else if Below(e.path, path) {
        AncestorIsLast(entries, path);
      } else {
        AncestorFollowsFront(entries, path);
      }
    }
  }

  lemma {:induction false} FrontIsSound(entries: seq<Entry>, path: string)
    requires CStrings(entries, path) && Distinct(entries) && entries != []
    ensures var front := entries[..|entries| - 1];
            CStrings(front, path) && Distinct(front) && NUL !in entries[|entries| - 1].path
  {
    assert entries[|entries| - 1] in entries;
  }

  lemma {:induction false} OwnIsLast(entries: seq<Entry>, path: string)
    requires CStrings(entries, path) && Distinct(entries) && entries != [] && entries[|entries| - 1].path == path
    ensures var front := entries[..|entries| - 1];
            && OwnSelf(front, path) == OwnChildren(front, path) == EMPTY
            && !AncestorFollows(front, path) && !AncestorFollows(entries, path)
  {
    var last := |entries| - 1;
    forall f | f in entries[..last] ensures f.path != path {
      var i :| 0 <= i < last && entries[i] == f;
    }
    NoOwnEntry(entries[..last], path);
    NotBelowItself(path);
    hide Below;
  }

  lemma {:induction false} AncestorIsLast(entries: seq<Entry>, path: string)
    requires entries != [] && Below(entries[|entries| - 1].path, path)
    ensures var front := entries[..|entries| - 1];
            AncestorFollows(entries, path) || (OwnSelf(front, path) == EMPTY && OwnChildren(front, path) == EMPTY)
  {
    hide Below;
    var last := |entries| - 1;
    if f :| f in entries[..last] && f.path == path {
      var i :| 0 <= i < last && entries[i] == f;
      assert AncestorFollows(entries, path);
    } else {
      NoOwnEntry(entries[..last], path);
    }
  }

  lemma {:induction false} AncestorFollowsFront(entries: seq<Entry>, path: string)
    requires entries != [] && !Below(entries[|entries| - 1].path, path)
    ensures AncestorFollows(entries, path) <==> AncestorFollows(entries[..|entries| - 1], path)
  {
  }

  /** Children get what the path's own entry and its ancestors say of children if
      and only if no ancestor entry follows the own one, or it says the same of both. */
  lemma {:induction false} ModesForChildrenAsMeantIff(entries: seq<Entry>, path: string)
    requires CStrings(entries, path) && Distinct(entries)
    ensures Modes(entries, path).children == Join(OwnChildren(entries, path), Inherited(entries, path)) <==>
            (!AncestorFollows(entries, path) ||
             Join(OwnSelf(entries, path), Inherited(entries, path)) ==
                 Join(OwnChildren(entries, path), Inherited(entries, path)))
  {
    ModesForChildren(entries, path);
  }

  /** The entry's path is `ds`, and it grants `bit` of the chosen kind to the path `cs`:
      for itself, or to what is in a directory. */
  ghost predicate Grants(e: Entry, ds: seq<string>, cs: seq<string>, bits: ModeSet -> Mode, bit: Bit) {
    (ds == cs && bit in bits(e.self)) || (ds < cs && ds != [] && bit in bits(e.children))
  }

  /** In terms of path components: a bit is set for a path exactly when its own entry
      sets it, or the entry of a proper ancestor other than the root sets it for children. */
  lemma {:induction false} SelfBitMeaning(entries: seq<Entry>, dss: seq<seq<string>>, cs: seq<string>,
                                          bits: ModeSet -> Mode, bit: Bit)
    requires |dss| == |entries| && AreComponents(cs)
    requires forall i | 0 <= i < |dss| :: AreComponents(dss[i]) && entries[i].path == PathOf(dss[i])
    requires bits(EMPTY) == {} && forall a, b :: bits(Join(a, b)) == bits(a) + bits(b)
    ensures bit in bits(Modes(entries, PathOf(cs)).self) <==>
            exists i | 0 <= i < |entries| :: Grants(entries[i], dss[i], cs, bits, bit)
  {
    hide Modes, Exact, Below, PathOf, AreComponents, Grants, Join;
    if entries == [] {
      assert Modes(entries, PathOf(cs)).self == EMPTY by { ModesOfNothing(PathOf(cs)); }
    } else {
      var last := |entries| - 1;
      SelfBitMeaning(entries[..last], dss[..last], cs, bits, bit);
      LastBit(entries, dss[last], cs, bits, bit);
      GrantsSnoc(entries, dss, cs, bits, bit);
    }
  }

  lemma {:induction false} ModesOfNothing(path: string)
    ensures Modes([], path) == PathModes(EMPTY, EMPTY)
  {
  }

  /** What the last entry adds. */
  lemma {:induction false} LastBit(entries: seq<Entry>, ds: seq<string>, cs: seq<string>, bits: ModeSet -> Mode,
                                   bit: Bit)
    requires entries != [] && AreComponents(cs) && AreComponents(ds) && entries[|entries| - 1].path == PathOf(ds)
    requires forall a, b :: bits(Join(a, b)) == bits(a) + bits(b)
    ensures var last := |entries| - 1;
            bit in bits(Modes(entries, PathOf(cs)).self) <==>
            bit in bits(Modes(entries[..last], PathOf(cs)).self) || Grants(entries[last], ds, cs, bits, bit)
  {
    hide PathOf, AreComponents, Join, Exact, Below;
    NoNulInPath(cs);
    NoNulInPath(ds);
    ExactMeaning(PathOf(ds), PathOf(cs));
    PathDeterminesComponents(ds, cs);
    BelowIsProperAncestorExceptRoot(ds, cs);
    var p, e := Modes(entries[..|entries| - 1], PathOf(cs)), entries[|entries| - 1];
    assert bits(Join(p.self, e.self)) == bits(p.self) + bits(e.self)
      && bits(Join(p.self, e.children)) == bits(p.self) + bits(e.children);
  }

  lemma {:induction false} NoNulInPath(cs: seq<string>)
    requires AreComponents(cs)
    ensures NUL !in PathOf(cs)
  {
    JoinedShape(cs);
  }

  lemma {:induction false} GrantsSnoc(entries: seq<Entry>, dss: seq<seq<string>>, cs: seq<string>,
                                      bits: ModeSet -> Mode, bit: Bit)
    requires entries != [] && |dss| == |entries|
    ensures var last := |entries| - 1;
            (exists i | 0 <= i < |entries| :: Grants(entries[i], dss[i], cs, bits, bit)) <==>
            (exists i | 0 <= i < last :: Grants(entries[..last][i], dss[..last][i], cs, bits, bit))
                || Grants(entries[last], dss[last], cs, bits, bit)
  {
    hide Grants;
    var last := |entries| - 1;
    if i :| 0 <= i < last && Grants(entries[..last][i], dss[..last][i], cs, bits, bit) {
      assert Grants(entries[i], dss[i], cs, bits, bit);
    }
    if i :| 0 <= i < |entries| && Grants(entries[i], dss[i], cs, bits, bit) {
      assert i < last ==> Grants(entries[..last][i], dss[..last][i], cs, bits, bit);
    }
  }

  /** Entries `/a/b` then `/a`: the reject bit for children of `/a/b` is lost. */
  lemma {:induction false} ChildrenRejectLost()
    ensures var own := Entry("/a/b", EMPTY, ModeSet({0}, {}, {}));
            var parent := Entry("/a", EMPTY, EMPTY);
            Modes([own, parent], "/a/b").children.reject == {} && Modes([parent, own], "/a/b").children.reject == {0}
  {
    var own := Entry("/a/b", EMPTY, ModeSet({0}, {}, {}));
    var parent := Entry("/a", EMPTY, EMPTY);
    var path := "/a/b";
    ExactMeaning("/a", path);
    BelowMeaning("/a", path);
    NotBelowItself(path);
    assert path[..2] == "/a" && path[2] == '/';
    assert [own, parent][..1] == [own] && [own][..0] == [];
    assert [parent, own][..1] == [parent] && [parent][..0] == [];
    assert Modes([own], path) == PathModes(EMPTY, ModeSet({0}, {}, {}));
    assert Modes([parent], path) == PathModes(EMPTY, EMPTY);
  }

  // ---------- gates and requests ----------

  datatype Status = Granted | RejectedPolicy | RejectedPrompt | RejectedUser | NullRequest | Failed

  /** Result of `permfs_actmode`. */
  datatype Action = Action(status: Status, rejected: Mode, byDefault: bool)

  /** `permfs_actmode` */
  function Act(modes: ModeSet, mode: Mode): Action {
    if modes.reject * mode != {} then Action(RejectedPolicy, mode - modes.reject, false)
    else
      var accepted := modes.accept * mode;
      if accepted != {} && accepted == mode then Action(Granted, {}, false)
      else
        var rest := mode - accepted;
        if modes.prompt * rest != {} then Action(RejectedPrompt, modes.prompt, false)
        else Action(RejectedPrompt, rest, true)
  }

  datatype Answer = Accept | Reject | AcceptRemember | RejectRemember | Unsupported | PrompterFails

  /** What a call finds outside the engine: whether the node's type is allowed, whether
      its kind can be told, and what the prompter answers. */
  datatype World = World(statOk: bool, kindOk: bool, answer: Answer)

  datatype Result = Result(entries: seq<Entry>, status: Status, prompted: bool)

  /** `permfs_promptrequest` */
  function Prompt(entries: seq<Entry>, path: string, self: Mode, children: Mode, answer: Answer): Result {
    match answer
    case Accept => Result(entries, Granted, true)
    case Reject => Result(entries, RejectedUser, true)
    case AcceptRemember => Result(Added(entries, path, ModeSet({}, self, {}), ModeSet({}, children, {})), Granted, true)
    case RejectRemember => Result(Added(entries, path, ModeSet(self, {}, {}), ModeSet(children, {}, {})),
      RejectedUser, true)
    case Unsupported => Result(entries, RejectedPrompt, true)
    case PrompterFails => Result(entries, Failed, true)
  }

  /** `gh_permfs_gatefile` */
  function Gate(entries: seq<Entry>, path: string, mode: Mode, world: World): Result {
    if !world.statOk then Result(entries, Failed, false)
    else
      var action := Act(Modes(entries, path).self, mode);
      if action.status != RejectedPrompt then Result(entries, action.status, false)
      else if !world.kindOk then Result(entries, Failed, false)
      else Prompt(entries, path, action.rejected, {}, world.answer)
  }

  /** The part of a requested mode that remains to be prompted for. */
  function Missing(modes: ModeSet, mode: Mode): Action {
    if mode == {} then Action(Granted, {}, false) else Act(modes, mode)
  }

  /** `gh_permfs_requestnode`; a dry run never prompts. */
  function Request(entries: seq<Entry>, path: string, self: Mode, children: Mode, dryRun: bool, world: World): Result {
    if self == {} && children == {} then Result(entries, NullRequest, false)
    else if !world.kindOk || !world.statOk then Result(entries, Failed, false)
    else
      var modes := Modes(entries, path);
      var forSelf := Missing(modes.self, self);
      if forSelf.status == RejectedPolicy then Result(entries, RejectedPolicy, false)
      else
        var forChildren := Missing(modes.children, children);
        if forChildren.status == RejectedPolicy then Result(entries, RejectedPolicy, false)
        else if forSelf.rejected == {} && forChildren.rejected == {} then Result(entries, Granted, false)
        else if dryRun then Result(entries, Granted, false)
        else Prompt(entries, path, forSelf.rejected, forChildren.rejected, world.answer)
  }

  // ---------- what gates and requests decide ----------

  /** Nothing of the mode is rejected, and all of it is accepted. */
  predicate AllGranted(modes: ModeSet, mode: Mode) {
    modes.reject * mode == {} && mode <= modes.accept
  }

  /** A gate for a nonzero mode is rejected exactly when one of its bits is, goes through
      in silence exactly when all its bits are accepted, and asks otherwise. */
  lemma {:induction false} GateDecides(entries: seq<Entry>, path: string, mode: Mode, world: World)
    requires world.statOk && world.kindOk && mode != {}
    ensures var modes, r := Modes(entries, path).self, Gate(entries, path, mode, world);
            && (r == Result(entries, RejectedPolicy, false) <==> modes.reject * mode != {})
            && (r == Result(entries, Granted, false) <==> AllGranted(modes, mode))
            && (r.prompted <==> modes.reject * mode == {} && !AllGranted(modes, mode))
  {
  }

  lemma {:induction false} PromptPrompts(entries: seq<Entry>, path: string)
    ensures forall self, children, answer :: Prompt(entries, path, self, children, answer).prompted
  {
  }

  lemma {:induction false} ActDecides(modes: ModeSet, mode: Mode)
    requires mode != {}
    ensures var a := Act(modes, mode);
            && (a.status == RejectedPolicy <==> modes.reject * mode != {})
            && (a.status == Granted <==> AllGranted(modes, mode))
            && (a.status == RejectedPrompt <==> modes.reject * mode == {} && !AllGranted(modes, mode))
            && (a.status == Granted ==> a.rejected == {}) && (a.status == RejectedPrompt ==> a.rejected != {})
  {
    assert modes.accept * mode == mode <==> mode <= modes.accept;
    if Act(modes, mode).status == RejectedPrompt {
      PromptedRejectionOverlaps(modes, mode);
    }
  }

  /** A request is rejected exactly when a bit for the path or for its children is, goes
      through in silence exactly when all are accepted, and asks otherwise, unless it is
      a dry run. */
  lemma {:induction false} RequestDecides(entries: seq<Entry>, path: string, self: Mode, children: Mode, dryRun: bool,
                                          world: World)
    requires world.statOk && world.kindOk && (self != {} || children != {})
    ensures var p, r := Modes(entries, path), Request(entries, path, self, children, dryRun, world);
            var rejected := p.self.reject * self != {} || p.children.reject * children != {};
            var granted := AllGranted(p.self, self) && AllGranted(p.children, children);
            && (r == Result(entries, RejectedPolicy, false) <==> rejected)
            && (r == Result(entries, Granted, false) <==> granted || (dryRun && !rejected))
            && (r.prompted <==> !rejected && !granted && !dryRun)
  {
    hide Modes, Prompt, Act;
    var p := Modes(entries, path);
    if self != {} { ActDecides(p.self, self); }
    if children != {} { ActDecides(p.children, children); }
    PromptPrompts(entries, path);
  }

  // ---------- what is asked for, and what is remembered ----------

  /** When an explicit prompt flag matches, the user is asked about the whole prompt set:
      about exactly what is missing if and only if no flag matches, or the set is just
      that. */
  lemma {:induction false} AsksForWhatIsMissingIff(modes: ModeSet, mode: Mode)
    requires Act(modes, mode).status == RejectedPrompt
    ensures Act(modes, mode).rejected == mode - modes.accept <==>
            modes.prompt * (mode - modes.accept) == {} || modes.prompt == mode - modes.accept
  {
  }

  /** What is remembered for the children of a path reaches the flags for children if and
      only if the path has no entry yet or they are there already; otherwise it lands in
      the flags for the path itself. */
  lemma {:induction false} RememberedForChildrenIff(entries: seq<Entry>, path: string, self: ModeSet, children: ModeSet)
    ensures var i, after := IndexOf(entries, path), Added(entries, path, self, children);
            && i < |after| && after[i].path == path
            && (Within(children, after[i].children) <==> i == |entries| || Within(children, entries[i].children))
            && (i < |entries| ==> after[i].self == Join(Join(entries[i].self, self), children))
  {
  }

  // ---------- loading entries from a file ----------

  datatype Scope = Self | Children
  datatype Verdict = AcceptFlag | RejectFlag | PromptFlag

  function SetBits(modes: ModeSet, verdict: Verdict, bits: Mode): ModeSet {
    match verdict
    case AcceptFlag => modes.(accept := modes.accept + bits)
    case RejectFlag => modes.(reject := modes.reject + bits)
    case PromptFlag => modes.(prompt := modes.prompt + bits)
  }

  /** One field of an entry read from a file (`permfsparser_setfield`). */
  function SetField(e: Entry, scope: Scope, verdict: Verdict, bits: Mode): Entry {
    match scope
    case Self => e.(self := SetBits(e.self, verdict, bits))
    case Children => e.(children := SetBits(e.children, verdict, bits))
  }

  // ---------- runs ----------

  /** Everything that can happen to the engine. A parsed entry is an `Open` followed
      by one `Field` for every flag read. */
  datatype Op =
    | GateFile(path: string, mode: Mode, world: World)
    | RequestNode(path: string, self: Mode, children: Mode, dryRun: bool, world: World)
    | Open(path: string)
    | Field(path: string, scope: Scope, verdict: Verdict, bits: Mode)

  function Step(entries: seq<Entry>, op: Op): Result {
    match op
    case GateFile(path, mode, world) => Gate(entries, path, mode, world)
    case RequestNode(path, self, children, dryRun, world) => Request(entries, path, self, children, dryRun, world)
    case Open(path) => Result(Added(entries, path, EMPTY, EMPTY), Granted, false)
    case Field(path, scope, verdict, bits) =>
      var i := IndexOf(entries, path);
      if i == |entries| then Result(entries, Failed, false)
      else Result(entries[i := SetField(entries[i], scope, verdict, bits)], Granted, false)
  }

  function Run(entries: seq<Entry>, ops: seq<Op>): seq<Entry>
    decreases |ops|
  {
    if ops == [] then entries else Run(Step(entries, ops[0]).entries, ops[1..])
  }

  // ---------- entries only grow ----------

  ghost predicate Grown(a: seq<Entry>, b: seq<Entry>) {
    && |a| <= |b|
    && forall i | 0 <= i < |a| ::
         b[i].path == a[i].path && Within(a[i].self, b[i].self) && Within(a[i].children, b[i].children)
  }

  lemma {:induction false} AddedGrows(entries: seq<Entry>, path: string, self: ModeSet, children: ModeSet)
    requires Distinct(entries)
    ensures Distinct(Added(entries, path, self, children)) && Grown(entries, Added(entries, path, self, children))
  {
  }

  lemma {:induction false} StepGrows(entries: seq<Entry>, op: Op)
    requires Distinct(entries)
    ensures Distinct(Step(entries, op).entries) && Grown(entries, Step(entries, op).entries)
  {
    hide Modes, Added;
    assert Grown(entries, entries);
    match op
    case GateFile(path, mode, world) =>
      var action := Act(Modes(entries, path).self, mode);
      AddedGrows(entries, path, ModeSet({}, action.rejected, {}), ModeSet({}, {}, {}));
      AddedGrows(entries, path, ModeSet(action.rejected, {}, {}), ModeSet({}, {}, {}));
    case RequestNode(path, self, children, dryRun, world) =>
      var modes := Modes(entries, path);
      var s, c := Missing(modes.self, self).rejected, Missing(modes.children, children).rejected;
      AddedGrows(entries, path, ModeSet({}, s, {}), ModeSet({}, c, {}));
      AddedGrows(entries, path, ModeSet(s, {}, {}), ModeSet(c, {}, {}));
    case Open(path) => AddedGrows(entries, path, EMPTY, EMPTY);
    case Field(path, scope, verdict, bits) =>
  }

  /** In every run, paths stay distinct and bit sets only grow. */
  lemma {:induction false} RunGrows(entries: seq<Entry>, ops: seq<Op>)
    requires Distinct(entries)
    ensures Distinct(Run(entries, ops)) && Grown(entries, Run(entries, ops))
    decreases |ops|
  {

    if ops != [] {
      StepGrows(entries, ops[0]);
      RunGrows(Step(entries, ops[0]).entries, ops[1..]);
    }
  }

  lemma {:induction false} ModesGrow(a: seq<Entry>, b: seq<Entry>, path: string)
    requires Grown(a, b)
    ensures Within(Modes(a, path).self, Modes(b, path).self)
    decreases |b|
  {
    if b != [] {
      var last := |b| - 1;
      if |a| < |b| {
        ModesGrow(a, b[..last], path);
      } else {
        ModesGrow(a[..last], b[..last], path);
      }
    }
  }

  /** A path's own entry applies to it. */
  lemma {:induction false} OwnEntryApplies(entries: seq<Entry>, i: nat)
    requires i < |entries| && NUL !in entries[i].path
    ensures Within(entries[i].self, Modes(entries, entries[i].path).self)
  {
    NotBelowItself(entries[i].path);
    if i < |entries| - 1 {
      OwnEntryApplies(entries[..|entries| - 1], i);
    }
  }

  // ---------- rejection is permanent ----------

  lemma {:induction false} AddedApplies(entries: seq<Entry>, path: string, self: ModeSet, children: ModeSet)
    requires NUL !in path
    ensures Within(self, Modes(Added(entries, path, self, children), path).self)
  {
    var after := Added(entries, path, self, children);
    var i := IndexOf(entries, path);
    OwnEntryApplies(after, i);
  }

  lemma {:induction false} PromptedRejectionOverlaps(modes: ModeSet, mode: Mode)
    requires mode != {} && Act(modes, mode).status == RejectedPrompt
    ensures Act(modes, mode).rejected * mode != {}
  {
    var accepted := modes.accept * mode;
    var rest := mode - accepted;
    if modes.prompt * rest != {} {
      var b :| b in modes.prompt * rest;
      assert b in modes.prompt * mode;
    } else {
      var b :| b in mode && b !in accepted;
      assert b in rest * mode;
    }
  }

  /** Once the user rejects a gate for good, the same gate is rejected by policy,
      without a prompt, after any run with any answers. */
  lemma {:induction false} RejectionIsPermanent(entries: seq<Entry>, path: string, mode: Mode, world: World,
                                                ops: seq<Op>, later: World)
    requires Distinct(entries) && NUL !in path && mode != {}
    requires Gate(entries, path, mode, world).prompted && world.answer == RejectRemember
    ensures var now := Run(Gate(entries, path, mode, world).entries, ops);
            Gate(now, path, mode, later) == Result(now, if later.statOk then RejectedPolicy else Failed, false)
  {
    hide Modes, Added, Distinct;
    var action := Act(Modes(entries, path).self, mode);
    var self := ModeSet(action.rejected, {}, {});
    var first := Gate(entries, path, mode, world).entries;
    assert first == Added(entries, path, self, EMPTY);
    PromptedRejectionOverlaps(Modes(entries, path).self, mode);
    AddedGrows(entries, path, self, EMPTY);
    AddedApplies(entries, path, self, EMPTY);
    RunGrows(first, ops);
    ModesGrow(first, Run(first, ops), path);
    var b :| b in action.rejected * mode;
    assert b in Modes(Run(first, ops), path).self.reject * mode;
  }

  // ---------- rejection of a request ----------

  /** All operations name such paths. */
  ghost predicate Named(names: string -> bool, ops: seq<Op>) {
    forall op | op in ops :: names(op.path)
  }

  ghost predicate AllCStrings(names: string -> bool) {
    forall p | names(p) :: NUL !in p
  }

  lemma {:induction false} AddedCStrings(entries: seq<Entry>, path: string, added: string, self: ModeSet,
                                         children: ModeSet)
    requires CStrings(entries, path) && NUL !in added
    ensures CStrings(Added(entries, added, self, children), path)
  {
    var after := Added(entries, added, self, children);
    forall e | e in after ensures NUL !in e.path {
      var j :| 0 <= j < |after| && after[j] == e;
      assert j < |entries| ==> entries[j] in entries && entries[j].path == e.path;
    }
  }

  lemma {:induction false} StepCStrings(entries: seq<Entry>, op: Op, path: string)
    requires CStrings(entries, path) && NUL !in op.path
    ensures CStrings(Step(entries, op).entries, path)
  {
    hide Modes, Added, CStrings;
    match op
    case GateFile(at, mode, world) =>
      var action := Act(Modes(entries, at).self, mode);
      AddedCStrings(entries, path, at, ModeSet({}, action.rejected, {}), EMPTY);
      AddedCStrings(entries, path, at, ModeSet(action.rejected, {}, {}), EMPTY);
    case RequestNode(at, self, children, dryRun, world) =>
      var modes := Modes(entries, at);
      var s, c := Missing(modes.self, self).rejected, Missing(modes.children, children).rejected;
      AddedCStrings(entries, path, at, ModeSet({}, s, {}), ModeSet({}, c, {}));
      AddedCStrings(entries, path, at, ModeSet(s, {}, {}), ModeSet(c, {}, {}));
    case Open(at) => AddedCStrings(entries, path, at, EMPTY, EMPTY);
    case Field(at, scope, verdict, bits) => FieldCStrings(entries, path, at, scope, verdict, bits);
  }

  lemma {:induction false} FieldCStrings(entries: seq<Entry>, path: string, at: string, scope: Scope, verdict: Verdict,
                                         bits: Mode)
    requires CStrings(entries, path)
    ensures CStrings(Step(entries, Field(at, scope, verdict, bits)).entries, path)
  {
    var after := Step(entries, Field(at, scope, verdict, bits)).entries;
    forall e | e in after ensures NUL !in e.path {
      var j :| 0 <= j < |after| && after[j] == e;
      assert entries[j] in entries && entries[j].path == e.path;
    }
  }

  lemma {:induction false} RunCStrings(entries: seq<Entry>, ops: seq<Op>, path: string, names: string -> bool)
    requires CStrings(entries, path) && AllCStrings(names) && Named(names, ops)
    ensures CStrings(Run(entries, ops), path)
    decreases |ops|
  {
    if ops != [] {
      assert ops[0] in ops && names(ops[0].path);
      StepCStrings(entries, ops[0], path);
      assert forall op | op in ops[1..] :: op in ops;
      RunCStrings(Step(entries, ops[0]).entries, ops[1..], path, names);
    }
  }

  /** From the entry `n` on, all have such paths. */
  ghost predicate NamedFrom(entries: seq<Entry>, n: nat, names: string -> bool) {
    forall j | n <= j < |entries| :: names(entries[j].path)
  }

  lemma {:induction false} StepNamed(entries: seq<Entry>, op: Op, n: nat, names: string -> bool)
    requires NamedFrom(entries, n, names) && names(op.path)
    ensures NamedFrom(Step(entries, op).entries, n, names)
  {
    hide Modes, Act, Missing;
  }

  lemma {:induction false} RunNamed(entries: seq<Entry>, ops: seq<Op>, n: nat, names: string -> bool)
    requires NamedFrom(entries, n, names) && Named(names, ops)
    ensures NamedFrom(Run(entries, ops), n, names)
    decreases |ops|
  {
    if ops != [] {
      assert ops[0] in ops && forall op | op in ops[1..] :: op in ops;
      StepNamed(entries, ops[0], n, names);
      hide Step, NamedFrom;
      RunNamed(Step(entries, ops[0]).entries, ops[1..], n, names);
    }
  }

  lemma {:induction false} OwnHas(entries: seq<Entry>, path: string, i: nat)
    requires i < |entries| && entries[i].path == path
    ensures Within(entries[i].self, OwnSelf(entries, path)) && Within(entries[i].children, OwnChildren(entries, path))
    decreases |entries|
  {
    if i < |entries| - 1 {
      OwnHas(entries[..|entries| - 1], path, i);
    }
  }

  /** Flags merged into the path's own entry reach the path, and nothing else it is asked for. */
  lemma {:induction false} OwnMerged(entries: seq<Entry>, path: string, i: nat, more: ModeSet)
    requires i < |entries| && entries[i].path == path && CStrings(entries, path) && Distinct(entries)
    ensures var after := entries[i := entries[i].(self := Join(entries[i].self, more))];
            && OwnSelf(after, path) == Join(OwnSelf(entries, path), more)
            && OwnChildren(after, path) == OwnChildren(entries, path)
               && Inherited(after, path) == Inherited(entries, path)
            && (AncestorFollows(after, path) <==> AncestorFollows(entries, path))
    decreases |entries|
  {
    hide Exact, Below, AncestorFollows, Distinct, CStrings;
    var last := |entries| - 1;
    var after := entries[i := entries[i].(self := Join(entries[i].self, more))];
    FrontIsSound(entries, path);
    SamePathsFollow(entries, after, path);
    if i < last {
      OwnMerged(entries[..last], path, i, more);
      assert after[..last] == entries[..last][i := entries[i].(self := Join(entries[i].self, more))];
    } else {
      NotBelowItself(path);
      assert after[..last] == entries[..last];
    }
  }

  lemma {:induction false} SamePathsFollow(a: seq<Entry>, b: seq<Entry>, path: string)
    requires |a| == |b| && forall j | 0 <= j < |a| :: b[j].path == a[j].path
    ensures AncestorFollows(a, path) <==> AncestorFollows(b, path)
  {
    hide Below;
  }

  ghost predicate RejectedBy(p: PathModes, self: Mode, children: Mode) {
    p.self.reject * self != {} || p.children.reject * children != {}
  }

  /** What a request that the user is asked about asks for. */
  ghost predicate Asks(entries: seq<Entry>, path: string, self: Mode, children: Mode, s: Mode, c: Mode) {
    var p := Modes(entries, path);
    && s == Missing(p.self, self).rejected && c == Missing(p.children, children).rejected
    && !RejectedBy(p, self, children) && (s != {} || c != {})
  }

  lemma {:induction false} PromptedAsks(entries: seq<Entry>, path: string, self: Mode, children: Mode, world: World)
    requires Request(entries, path, self, children, false, world).prompted
    ensures var p := Modes(entries, path);
            var s, c := Missing(p.self, self).rejected, Missing(p.children, children).rejected;
            && Asks(entries, path, self, children, s, c)
            && (s != {} ==> s * self != {}) && (c != {} ==> c * children != {})
            && Request(entries, path, self, children, false, world) == Prompt(entries, path, s, c, world.answer)
  {
    hide Modes, Prompt;
    var p := Modes(entries, path);
    if self != {} && Missing(p.self, self).status == RejectedPrompt { PromptedRejectionOverlaps(p.self, self); }
    if children != {} && Missing(p.children, children).status ==
      RejectedPrompt { PromptedRejectionOverlaps(p.children, children); }
  }

  /** After every run over such paths, and whatever then is the case outside, the request is
      rejected by policy, without a prompt. */
  ghost predicate RejectedForGood(names: string -> bool, entries: seq<Entry>, path: string, self: Mode,
                                  children: Mode) {
    forall ops, later: World | Named(names, ops) && later.statOk && later.kindOk ::
      Request(Run(entries, ops), path, self, children, false, later) == Result(Run(entries, ops), RejectedPolicy, false)
  }

  /** Every such path that would be matched as an ancestor has an entry. */
  predicate AncestorsListed(names: string -> bool, entries: seq<Entry>, path: string) {
    forall k | 0 <= k < |path| && path[k] == '/' && names(path[..k]) :: IndexOf(entries, path[..k]) < |entries|
  }

  /** When a request rejected with remembering stays so: if the user was asked about the path
      itself; or else, if the path had an entry, into whose own flags those for children went,
      when these are what was asked for the path, or an ancestor's entry follows; or if it had
      none, when no ancestor's entry can follow. */
  ghost predicate Lasting(names: string -> bool, entries: seq<Entry>, path: string, self: Mode, s: Mode, c: Mode) {
    || s != {}
    || if IndexOf(entries, path) < |entries| then AncestorFollows(entries, path) || c * self != {}
       else AncestorsListed(names, entries, path)
  }

  /** A request that was rejected with remembering is rejected for good if and only if that
      lasts, over the runs that name any given kind of paths. */
  lemma {:induction false} RequestRejectionIsPermanentIff(names: string -> bool, entries: seq<Entry>, path: string,
                                                          self: Mode, children: Mode, world: World)
    requires AllCStrings(names) && Distinct(entries) && CStrings(entries, path)
    requires Request(entries, path, self, children, false, world).prompted && world.answer == RejectRemember
    ensures var p := Modes(entries, path);
            var s, c := Missing(p.self, self).rejected, Missing(p.children, children).rejected;
            RejectedForGood(names, Request(entries, path, self, children, false, world).entries, path, self,
                children) <==>
            Lasting(names, entries, path, self, s, c)
  {
    PromptedAsks(entries, path, self, children, world);
    var p := Modes(entries, path);
    var s, c := Missing(p.self, self).rejected, Missing(p.children, children).rejected;
    var first := Added(entries, path, ModeSet(s, {}, {}), ModeSet(c, {}, {}));
    assert Request(entries, path, self, children, false, world).entries == first;
    hide Modes, Request, Asks, Lasting, Added, CStrings, Distinct, Run, AllCStrings, Named;
    if Lasting(names, entries, path, self, s, c) {
      forall ops, later: World | Named(names, ops) && later.statOk && later.kindOk
        ensures Request(Run(first, ops), path, self, children, false, later) ==
                Result(Run(first, ops), RejectedPolicy, false)
      {
        StaysRejected(names, entries, path, self, children, s, c, ops);
        RequestDecides(Run(first, ops), path, self, children, false, later);
      }
    } else {
      var ops := WayOut(names, entries, path, self, children, s, c);
      var later := World(true, true, Reject);
      RequestDecides(Run(first, ops), path, self, children, false, later);
      assert Request(Run(first, ops), path, self, children, false, later) != Result(Run(first, ops),
        RejectedPolicy, false);
    }
  }

  lemma {:induction false} StaysRejected(names: string -> bool, entries: seq<Entry>, path: string, self: Mode,
                                         children: Mode, s: Mode, c: Mode, ops: seq<Op>)
    requires AllCStrings(names) && Distinct(entries) && CStrings(entries, path) && Named(names, ops)
    requires Asks(entries, path, self, children, s, c) && Lasting(names, entries, path, self, s, c)
    requires (s != {} ==> s * self != {}) && (c != {} ==> c * children != {})
    ensures var first := Added(entries, path, ModeSet(s, {}, {}), ModeSet(c, {}, {}));
            RejectedBy(Modes(Run(first, ops), path), self, children)
  {
    hide Modes, Run, Added, Named, AllCStrings;
    var first := Added(entries, path, ModeSet(s, {}, {}), ModeSet(c, {}, {}));
    var i := IndexOf(entries, path);
    AddedGrows(entries, path, ModeSet(s, {}, {}), ModeSet(c, {}, {}));
    AddedCStrings(entries, path, path, ModeSet(s, {}, {}), ModeSet(c, {}, {}));
    AddedAt(entries, path, ModeSet(s, {}, {}), ModeSet(c, {}, {}));
    RunGrows(first, ops);
    RunCStrings(first, ops, path, names);
    assert NamedFrom(first, |first|, names);
    RunNamed(first, ops, |first|, names);
    var now := Run(first, ops);
    OwnHas(now, path, i);
    ModesForSelf(now, path);
    ModesForChildren(now, path);
    hide Grown, Distinct, CStrings, Asks, NamedFrom;
    assert Within(first[i].self, now[i].self) && Within(first[i].children,
      now[i].children) by { GrownAt(first, now, i); }
    if s != {} {
      Overlap(s, self, Modes(now, path).self.reject);
    } else if i < |entries| {
      if c * self != {} {
        Overlap(c, self, Modes(now, path).self.reject);
      } else {
        AncestorStillFollows(entries, first, now, path);
        Overlap(c, children, Modes(now, path).children.reject);
      }
    } else {
      NoAncestorFollows(names, entries, first, now, path);
      Overlap(c, children, Modes(now, path).children.reject);
    }
  }

  lemma {:induction false} Overlap(bits: Mode, mode: Mode, reject: Mode)
    requires bits * mode != {} && bits <= reject
    ensures reject * mode != {}
  {
    var b :| b in bits * mode;
    assert b in reject * mode;
  }

  lemma {:induction false} GrownAt(a: seq<Entry>, b: seq<Entry>, i: nat)
    requires Grown(a, b) && i < |a|
    ensures b[i].path == a[i].path && Within(a[i].self, b[i].self) && Within(a[i].children, b[i].children)
  {
  }

  lemma {:induction false} AddedAt(entries: seq<Entry>, path: string, self: ModeSet, children: ModeSet)
    ensures var i, after := IndexOf(entries, path), Added(entries, path, self, children);
            && i < |after| && after[i].path == path && Within(self, after[i].self)
            && (i < |entries| ==> Within(children, after[i].self))
               && (i == |entries| ==> Within(children, after[i].children))
            && |entries| <= |after| && (i == |entries| ==> |after| == |entries| + 1)
            && forall j | 0 <= j < |entries| :: after[j].path == entries[j].path
  {
  }

  lemma {:induction false} AncestorStillFollows(entries: seq<Entry>, first: seq<Entry>, now: seq<Entry>, path: string)
    requires AncestorFollows(entries, path) && |entries| <= |first| && Grown(first, now)
    requires forall j | 0 <= j < |entries| :: first[j].path == entries[j].path
    ensures AncestorFollows(now, path)
  {
  }

  lemma {:induction false} NoAncestorFollows(names: string -> bool, entries: seq<Entry>, first: seq<Entry>,
                                             now: seq<Entry>, path: string)
    requires AncestorsListed(names, entries, path) && IndexOf(entries, path) == |entries| && |first| == |entries| + 1
    requires first[|entries|].path == path && forall j | 0 <= j < |entries| :: first[j].path == entries[j].path
    requires Grown(first, now) && Distinct(now) && CStrings(now, path) && NamedFrom(now, |first|, names)
    ensures !AncestorFollows(now, path)
  {
    if i, j :| 0 <= i < j < |now| && now[i].path == path && Below(now[j].path, path) {
      assert now[|entries|].path == path;
      assert i == |entries|;
      var q := now[j].path;
      assert now[j] in now && names(q);
      BelowMeaning(q, path);
      assert path[..|q|] == q;
      assert now[IndexOf(entries, q)].path == q;
    }
  }

  /** A run after which a rejection that does not last is none. */
  lemma {:induction false} WayOut(names: string -> bool, entries: seq<Entry>, path: string, self: Mode, children: Mode,
                                  s: Mode, c: Mode)
    returns (ops: seq<Op>)
    requires AllCStrings(names) && Distinct(entries) && CStrings(entries, path)
    requires Asks(entries, path, self, children, s, c) && !Lasting(names, entries, path, self, s, c)
    ensures Named(names, ops)
    ensures var first := Added(entries, path, ModeSet(s, {}, {}), ModeSet(c, {}, {}));
            !RejectedBy(Modes(Run(first, ops), path), self, children)
  {
    if IndexOf(entries, path) < |entries| {
      ops := [];
      RightAfter(entries, path, self, children, c);
    } else {
      var k :| 0 <= k < |path| && path[k] == '/' && names(path[..k]) && IndexOf(entries, path[..k]) == |entries|;
      var q := path[..k];
      BelowMeaning(q, path);
      ops := [Open(q)];
      OnceAncestorFollows(entries, path, self, children, c, q);
    }
  }

  lemma {:induction false} RightAfter(entries: seq<Entry>, path: string, self: Mode, children: Mode, c: Mode)
    requires Distinct(entries) && CStrings(entries, path) && IndexOf(entries, path) < |entries|
    requires !RejectedBy(Modes(entries, path), self, children)
    requires !AncestorFollows(entries, path) && c * self == {}
    ensures var first := Added(entries, path, ModeSet({}, {}, {}), ModeSet(c, {}, {}));
            !RejectedBy(Modes(Run(first, []), path), self, children)
  {
    hide Modes;
    var i, more := IndexOf(entries, path), Join(ModeSet({}, {}, {}), ModeSet(c, {}, {}));
    var first := Added(entries, path, ModeSet({}, {}, {}), ModeSet(c, {}, {}));
    assert Join(Join(entries[i].self, ModeSet({}, {}, {})), ModeSet(c, {}, {})) == Join(entries[i].self, more);
    assert first == entries[i := entries[i].(self := Join(entries[i].self, more))];
    OwnMerged(entries, path, i, more);
    AddedGrows(entries, path, ModeSet({}, {}, {}), ModeSet(c, {}, {}));
    AddedCStrings(entries, path, path, ModeSet({}, {}, {}), ModeSet(c, {}, {}));
    ModesForSelf(entries, path);
    ModesForChildren(entries, path);
    ModesForSelf(first, path);
    ModesForChildren(first, path);
  }

  lemma {:induction false} OnceAncestorFollows(entries: seq<Entry>, path: string, self: Mode, children: Mode, c: Mode,
                                               q: string)
    requires Distinct(entries) && CStrings(entries, path) && IndexOf(entries, path) == |entries|
    requires !RejectedBy(Modes(entries, path), self, children)
    requires Below(q, path) && NUL !in q && IndexOf(entries, q) == |entries|
    ensures var first := Added(entries, path, ModeSet({}, {}, {}), ModeSet(c, {}, {}));
            !RejectedBy(Modes(Run(first, [Open(q)]), path), self, children)
  {
    NotBelowItself(path);
    assert q != path;
    ExactMeaning(q, path);
    var own := Entry(path, EMPTY, ModeSet(c, {}, {}));
    var first := Added(entries, path, EMPTY, ModeSet(c, {}, {}));
    assert first == entries + [own];
    var ancestor := Entry(q, EMPTY, EMPTY);
    NotListed(entries, own, q);
    var now := first + [ancestor];
    assert [Open(q)][1..] == [];
    assert Run(first, [Open(q)]) == now;
    NothingOwn(entries, path);
    assert now[..|now| - 1] == first && first[..|first| - 1] == entries;
    var p := Modes(entries, path);
    assert Modes(first, path) == PathModes(Join(p.self, EMPTY), Join(p.children, own.children));
    assert Modes(now, path) == PathModes(Join(Join(p.self, EMPTY), EMPTY),
      Join(Join(Join(p.self, EMPTY), EMPTY), EMPTY));
  }

  lemma {:induction false} NotListed(entries: seq<Entry>, own: Entry, q: string)
    requires IndexOf(entries, q) == |entries| && own.path != q
    ensures Added(entries + [own], q, EMPTY, EMPTY) == entries + [own] + [Entry(q, EMPTY, EMPTY)]
  {
    var first := entries + [own];
    assert forall j | 0 <= j < |first| :: first[j].path != q;
    assert IndexOf(first, q) == |first|;
  }

  lemma {:induction false} NothingOwn(entries: seq<Entry>, path: string)
    requires Distinct(entries) && CStrings(entries, path) && IndexOf(entries, path) == |entries|
    ensures Modes(entries, path).self == Modes(entries, path).children
  {
    hide Modes;
    forall e | e in entries ensures e.path != path {
      var j :| 0 <= j < |entries| && entries[j] == e;
    }
    NoOwnEntry(entries, path);
    ModesForSelf(entries, path);
    ModesForChildren(entries, path);
  }

  /** The canonical absolute paths. */
  ghost predicate IsCanonical(path: string) {
    exists cs :: AreComponents(cs) && path == PathOf(cs)
  }

  lemma {:induction false} CanonicalAreCStrings()
    ensures AllCStrings(p => IsCanonical(p))
  {
    forall p | IsCanonical(p) ensures NUL !in p {
      var cs :| AreComponents(cs) && p == PathOf(cs);
      NoNulInPath(cs);
    }
  }

  /** Over canonical paths, what would be matched are the proper ancestors other than the root. */
  lemma {:induction false} CanonicalAncestors(entries: seq<Entry>, cs: seq<string>)
    requires AreComponents(cs)
    ensures AncestorsListed(p => IsCanonical(p), entries, PathOf(cs)) <==>
            forall n | 0 < n < |cs| :: IndexOf(entries, PathOf(cs[..n])) < |entries|
  {
    var path := PathOf(cs);
    NoNulInPath(cs);
    if forall n | 0 < n < |cs| :: IndexOf(entries, PathOf(cs[..n])) < |entries| {
      forall k | 0 <= k < |path| && path[k] == '/' && IsCanonical(path[..k]) ensures IndexOf(entries,
        path[..k]) < |entries| {
        var ds :| AreComponents(ds) && path[..k] == PathOf(ds);
        NoNulInPath(ds);
        BelowMeaning(path[..k], path);
        BelowIsProperAncestorExceptRoot(ds, cs);
        assert ds == cs[..|ds|];
      }
    }
    if AncestorsListed(p => IsCanonical(p), entries, path) {
      forall n | 0 < n < |cs| ensures IndexOf(entries, PathOf(cs[..n])) < |entries| {
        var ds := cs[..n];
        assert forall d | d in ds :: d in cs;
        NoNulInPath(ds);
        BelowIsProperAncestorExceptRoot(ds, cs);
        BelowMeaning(PathOf(ds), path);
        assert path[..|PathOf(ds)|] == PathOf(ds) && IsCanonical(PathOf(ds));
      }
    }
  }

  /** Over the runs that name canonical paths only: if the path itself was not asked for, and had no
      entry, the rejection lasts exactly when all directories above it, but the root, have one. */
  lemma {:induction false} CanonicalRejectionIsPermanentIff(entries: seq<Entry>, cs: seq<string>, self: Mode,
                                                            children: Mode, world: World)
    requires Distinct(entries) && CStrings(entries, PathOf(cs)) && AreComponents(cs)
    requires Request(entries, PathOf(cs), self, children, false, world).prompted && world.answer == RejectRemember
    ensures var path := PathOf(cs);
            var p := Modes(entries, path);
            var s, c := Missing(p.self, self).rejected, Missing(p.children, children).rejected;
            RejectedForGood(p => IsCanonical(p), Request(entries, path, self, children, false, world).entries, path,
                self, children) <==>
            s != {} || if IndexOf(entries, path) < |entries| then AncestorFollows(entries, path) || c * self != {}
                       else forall n | 0 < n < |cs| :: IndexOf(entries, PathOf(cs[..n])) < |entries|
  {
    hide Modes, Request, Missing, IsCanonical, Distinct, CStrings, AncestorsListed, RejectedForGood;
    CanonicalAreCStrings();
    CanonicalAncestors(entries, cs);
    RequestRejectionIsPermanentIff(p => IsCanonical(p), entries, PathOf(cs), self, children, world);
  }

  /** With an entry for `/a`, a request for its children that is rejected for good is asked
      again right away: the flag went to `/a` itself. */
  lemma {:induction false} ChildrenRejectionForgotten(world: World)
    requires world.statOk && world.kindOk && world.answer == RejectRemember
    ensures var r := Request([Entry("/a", EMPTY, EMPTY)], "/a", {}, {0}, false, world);
            && r == Result([Entry("/a", ModeSet({0}, {}, {}), EMPTY)], RejectedUser, true)
            && Request(r.entries, "/a", {}, {0}, false, world).prompted
  {
    var before, after := [Entry("/a", EMPTY, EMPTY)], [Entry("/a", ModeSet({0}, {}, {}), EMPTY)];
    NotBelowItself("/a");
    assert before[..0] == [] && after[..0] == [];
    assert Modes(before, "/a") == PathModes(EMPTY, EMPTY);
    assert Modes(after, "/a") == PathModes(ModeSet({0}, {}, {}), EMPTY);
    assert Act(EMPTY, {0}) == Action(RejectedPrompt, {0}, true) by { assert {0} * {0} == {0} && {0} - {} * {0} == {0}; }
    assert IndexOf(before, "/a") == 0;
  }

  // ---------- acceptance converges ----------

  /** An operation after which nothing more is rejected or prompted for: answers are
      always to accept and remember, and files only accept. */
  predicate OnlyAccepts(op: Op) {
    match op
    case GateFile(_, _, world) => world.answer == AcceptRemember
    case RequestNode(_, _, _, _, world) => world.answer == AcceptRemember
    case Open(_) => true
    case Field(_, _, verdict, _) => verdict == AcceptFlag
  }

  /** How many more prompts a gate can need: none once all of the mode is accepted, one
      if what is missing is not set to prompt, and otherwise two. */
  function PromptsLeft(modes: ModeSet, mode: Mode): nat {
    if mode <= modes.accept then 0
    else if modes.prompt * (mode - modes.accept) == {} then 1
    else 2
  }

  ghost predicate SameElse(a: ModeSet, b: ModeSet) {
    b.reject == a.reject && b.prompt == a.prompt && a.accept <= b.accept
  }

  /** The entry list with accept bits, or entries without other bits, added. */
  ghost predicate Accepting(a: seq<Entry>, b: seq<Entry>) {
    && |a| <= |b|
    && (forall i | 0 <= i < |a| ::
          b[i].path == a[i].path && SameElse(a[i].self, b[i].self) && SameElse(a[i].children, b[i].children))
    && (forall i | |a| <= i < |b| :: SameElse(EMPTY, b[i].self) && SameElse(EMPTY, b[i].children))
  }

  lemma {:induction false} AddedAccepting(entries: seq<Entry>, path: string, self: Mode, children: Mode)
    ensures Accepting(entries, Added(entries, path, ModeSet({}, self, {}), ModeSet({}, children, {})))
  {
  }

  lemma {:induction false} StepAccepting(entries: seq<Entry>, op: Op)
    requires OnlyAccepts(op)
    ensures Accepting(entries, Step(entries, op).entries)
  {
    hide Modes, Added;
    match op
    case GateFile(path, mode, world) =>
      AddedAccepting(entries, path, Act(Modes(entries, path).self, mode).rejected, {});
    case RequestNode(path, self, children, dryRun, world) =>
      var modes := Modes(entries, path);
      AddedAccepting(entries, path, Missing(modes.self, self).rejected, Missing(modes.children, children).rejected);
    case Open(path) => AddedAccepting(entries, path, {}, {});
    case Field(path, scope, verdict, bits) =>
  }

  lemma {:induction false} ModesAccepting(a: seq<Entry>, b: seq<Entry>, path: string)
    requires Accepting(a, b)
    ensures SameElse(Modes(a, path).self, Modes(b, path).self)
    decreases |b|
  {
    if b != [] {
      var last := |b| - 1;
      if |a| < |b| {
        ModesAccepting(a, b[..last], path);
      } else {
        ModesAccepting(a[..last], b[..last], path);
      }
    }
  }

  /** Prompts that gates for this path and mode make in a run. */
  function Prompts(entries: seq<Entry>, ops: seq<Op>, path: string, mode: Mode): nat
    decreases |ops|
  {
    if ops == [] then 0
    else
      var r := Step(entries, ops[0]);
      (if ops[0].GateFile? && ops[0].path == path && ops[0].mode == mode && r.prompted then 1 else 0) +
      Prompts(r.entries, ops[1..], path, mode)
  }

  /** A prompt that is accepted for good uses up one of the prompts left. */
  lemma {:induction false} GateUsesPrompt(entries: seq<Entry>, path: string, mode: Mode, world: World)
    requires NUL !in path && mode != {} && world.answer == AcceptRemember
    requires Gate(entries, path, mode, world).prompted
    ensures PromptsLeft(Modes(Gate(entries, path, mode, world).entries, path).self,
            mode) < PromptsLeft(Modes(entries, path).self, mode)
  {
    var before := Modes(entries, path).self;
    var action := Act(before, mode);
    var self := ModeSet({}, action.rejected, {});
    var entries' := Gate(entries, path, mode, world).entries;
    assert entries' == Added(entries, path, self, EMPTY);
    AddedApplies(entries, path, self, EMPTY);
    StepAccepting(entries, GateFile(path, mode, world));
    ModesAccepting(entries, entries', path);
    var after := Modes(entries', path).self;
    var rest := mode - before.accept * mode;
    assert rest == mode - before.accept;
    assert before.accept * mode == mode <==> mode <= before.accept;
    if before.prompt * rest == {} {
      assert mode <= after.accept;
    } else {
      assert after.prompt * (mode - after.accept) == {};
    }
  }

  lemma {:induction false} PromptsBounded(entries: seq<Entry>, ops: seq<Op>, path: string, mode: Mode)
    requires NUL !in path && mode != {} && forall op | op in ops :: OnlyAccepts(op)
    ensures Prompts(entries, ops, path, mode) + PromptsLeft(Modes(Run(entries, ops), path).self,
            mode) <= PromptsLeft(Modes(entries, path).self, mode)
    ensures SameElse(Modes(entries, path).self, Modes(Run(entries, ops), path).self)
    decreases |ops|
  {
    if ops != [] {
      var entries' := Step(entries, ops[0]).entries;
      assert ops[0] in ops;
      StepAccepting(entries, ops[0]);
      ModesAccepting(entries, entries', path);
      PromptsBounded(entries', ops[1..], path, mode);
      if ops[0].GateFile? && ops[0].path == path && ops[0].mode == mode && Step(entries, ops[0]).prompted {
        GateUsesPrompt(entries, path, mode, ops[0].world);
      }
    }
  }

  /** With answers that accept for good, and nothing of the mode rejected, a gate
      prompts at most twice over any run; after its second prompt, or once it succeeded
      silently, it succeeds silently after any further run. */
  lemma {:induction false} AcceptanceConverges(entries: seq<Entry>, ops: seq<Op>, more: seq<Op>, path: string,
                                               mode: Mode, world: World)
    requires NUL !in path && mode != {} && world.statOk
    requires forall op | op in ops + more :: OnlyAccepts(op)
    requires Modes(entries, path).self.reject * mode == {}
    ensures Prompts(entries, ops, path, mode) <= 2
    ensures var now := Run(entries, ops);
            var later := Run(now, more);
            (Prompts(entries, ops, path, mode) == 2 || Gate(now, path, mode, world) == Result(now, Granted, false)) ==>
              Gate(later, path, mode, world) == Result(later, Granted, false)
  {
    hide Modes, Added, Step, Run, Prompts, OnlyAccepts;
    var now := Run(entries, ops);
    var later := Run(now, more);
    assert forall op | op in ops :: op in ops + more;
    assert forall op | op in more :: op in ops + more;
    PromptsBounded(entries, ops, path, mode);
    PromptsBounded(now, more, path, mode);
    var modes := Modes(now, path).self;
    if Gate(now, path, mode, world) == Result(now, Granted, false) {
      assert modes.accept * mode == mode by {
        if Act(modes, mode).status == RejectedPrompt && !world.kindOk {
          assert false;
        }
      }
      assert mode <= modes.accept;
    }
    if mode <= modes.accept {
      var final := Modes(later, path).self;
      assert final.accept * mode == mode;
    }
  }

  // ---------- acceptance of a request ----------

  lemma {:induction false} AcceptingTwice(a: seq<Entry>, b: seq<Entry>, c: seq<Entry>)
    requires Accepting(a, b) && Accepting(b, c)
    ensures Accepting(a, c)
  {
  }

  lemma {:induction false} RunAccepting(entries: seq<Entry>, ops: seq<Op>)
    requires forall op | op in ops :: OnlyAccepts(op)
    ensures Accepting(entries, Run(entries, ops))
    decreases |ops|
  {
    hide Step, OnlyAccepts;
    if ops != [] {
      assert ops[0] in ops && forall op | op in ops[1..] :: op in ops;
      StepAccepting(entries, ops[0]);
      RunAccepting(Step(entries, ops[0]).entries, ops[1..]);
      AcceptingTwice(entries, Step(entries, ops[0]).entries, Run(entries, ops));
    }
  }

  lemma {:induction false} PartsAccepting(a: seq<Entry>, b: seq<Entry>, path: string)
    requires Accepting(a, b)
    ensures SameElse(OwnSelf(a, path), OwnSelf(b, path))
    ensures SameElse(OwnChildren(a, path), OwnChildren(b, path))
    ensures SameElse(Inherited(a, path), Inherited(b, path))
    decreases |b|
  {
    hide Below;
    if b != [] {
      var last := |b| - 1;
      if |a| < |b| {
        PartsAccepting(a, b[..last], path);
      } else {
        PartsAccepting(a[..last], b[..last], path);
      }
    }
  }

  /** Once an ancestor's entry follows the own one, children have what the path itself has. */
  lemma {:induction false} FollowedAreAlike(entries: seq<Entry>, path: string)
    requires CStrings(entries, path) && Distinct(entries) && AncestorFollows(entries, path)
    ensures Modes(entries, path).children == Modes(entries, path).self
  {
    ModesForSelf(entries, path);
    ModesForChildren(entries, path);
  }

  lemma {:induction false} ChildrenAccepting(a: seq<Entry>, b: seq<Entry>, path: string)
    requires Accepting(a, b) && CStrings(a, path) && Distinct(a) && CStrings(b, path) && Distinct(b)
    requires AncestorFollows(a, path) <==> AncestorFollows(b, path)
    ensures SameElse(Modes(a, path).children, Modes(b, path).children)
  {
    hide Modes, OwnSelf, OwnChildren, Inherited, AncestorFollows, Accepting, CStrings, Distinct;
    ModesForChildren(a, path);
    ModesForChildren(b, path);
    PartsAccepting(a, b, path);
  }

  lemma {:induction false} StillGranted(a: ModeSet, b: ModeSet, mode: Mode)
    requires SameElse(a, b) && AllGranted(a, mode)
    ensures AllGranted(b, mode)
  {
  }

  /** After every run over such paths that only accepts, and whatever then is the case outside, the
      request is granted without a prompt. */
  ghost predicate GrantedForGood(names: string -> bool, entries: seq<Entry>, path: string, self: Mode, children: Mode) {
    forall ops, later: World |
      Named(names, ops) && (forall op | op in ops :: OnlyAccepts(op)) && later.statOk && later.kindOk ::
      Request(Run(entries, ops), path, self, children, false, later) == Result(Run(entries, ops), Granted, false)
  }

  /** What is granted now, and still is when an entry of an ancestor comes to follow, if one can. */
  ghost predicate Granting(names: string -> bool, entries: seq<Entry>, path: string, self: Mode, children: Mode) {
    var p := Modes(entries, path);
    && AllGranted(p.self, self) && AllGranted(p.children, children)
    && (AncestorsListed(names, entries, path) || AllGranted(p.self, children))
  }

  lemma {:induction false} NewAncestor(names: string -> bool, entries: seq<Entry>, now: seq<Entry>, path: string)
    requires Grown(entries, now) && Distinct(now) && CStrings(now, path) && NamedFrom(now, |entries|, names)
    requires IndexOf(entries, path) < |entries| && AncestorsListed(names, entries, path) && AncestorFollows(now, path)
    ensures AncestorFollows(entries, path)
  {
    var own := IndexOf(entries, path);
    var i, j :| 0 <= i < j < |now| && now[i].path == path && Below(now[j].path, path);
    assert now[own].path == path;
    assert i == own;
    assert now[j] in now;
    if j >= |entries| {
      ListedAncestor(names, entries, path, now[j].path);
      assert false;
    }
  }

  lemma {:induction false} ListedAncestor(names: string -> bool, entries: seq<Entry>, path: string, q: string)
    requires AncestorsListed(names, entries, path) && names(q) && Below(q, path) && NUL !in q && NUL !in path
    ensures exists i | 0 <= i < |entries| :: entries[i].path == q
  {
    BelowMeaning(q, path);
    assert path[..|q|] == q;
    assert entries[IndexOf(entries, q)].path == q;
  }

  lemma {:induction false} StaysGranted(names: string -> bool, entries: seq<Entry>, path: string, self: Mode,
                                        children: Mode, ops: seq<Op>)
    requires AllCStrings(names) && Distinct(entries) && CStrings(entries, path) && IndexOf(entries, path) < |entries|
    requires Granting(names, entries, path, self, children)
    requires Named(names, ops) && forall op | op in ops :: OnlyAccepts(op)
    ensures var p := Modes(Run(entries, ops), path); AllGranted(p.self, self) && AllGranted(p.children, children)
  {
    hide Modes, Run, Accepting, Grown, Distinct, CStrings, Named, AncestorFollows, AncestorsListed, AllCStrings,
      AllGranted, SameElse;
    var now := Run(entries, ops);
    RunGrows(entries, ops);
    RunCStrings(entries, ops, path, names);
    RunAccepting(entries, ops);
    assert NamedFrom(entries, |entries|, names);
    RunNamed(entries, ops, |entries|, names);
    ModesAccepting(entries, now, path);
    var p, p' := Modes(entries, path), Modes(now, path);
    StillGranted(p.self, p'.self, self);
    if AncestorFollows(entries, path) {
      FollowsStill(entries, now, path);
    }
    if AncestorFollows(entries, path) <==> AncestorFollows(now, path) {
      ChildrenAccepting(entries, now, path);
      StillGranted(p.children, p'.children, children);
    } else {
      FollowedAreAlike(now, path);
      if AncestorsListed(names, entries, path) {
        NewAncestor(names, entries, now, path);
      }
      StillGranted(p.self, p'.self, children);
    }
  }

  lemma {:induction false} FollowsStill(a: seq<Entry>, b: seq<Entry>, path: string)
    requires AncestorFollows(a, path) && Grown(a, b)
    ensures AncestorFollows(b, path)
  {
  }

  /** An entry for an ancestor that has none makes children have what the path itself has. */
  lemma {:induction false} AncestorOpened(entries: seq<Entry>, path: string, q: string)
    requires Below(q, path) && NUL !in q && NUL !in path && IndexOf(entries, q) == |entries|
    ensures Run(entries, [Open(q)]) == entries + [Entry(q, EMPTY, EMPTY)]
    ensures Modes(Run(entries, [Open(q)]), path).children == Modes(entries, path).self
  {
    NotBelowItself(path);
    ExactMeaning(q, path);
    var now, p := entries + [Entry(q, EMPTY, EMPTY)], Modes(entries, path);
    assert [Open(q)][1..] == [];
    assert Run(entries, [Open(q)]) == now;
    assert now[..|now| - 1] == entries;
    assert Modes(now, path).children == Join(Join(p.self, EMPTY), EMPTY);
  }

  /** A request for a path with an entry is granted for good if and only if it is granted now, and
      either no ancestor's entry can come to follow, or what the path itself has would do for its
      children. */
  lemma {:induction false} GrantedForGoodIff(names: string -> bool, entries: seq<Entry>, path: string, self: Mode,
                                             children: Mode)
    requires AllCStrings(names) && Distinct(entries) && CStrings(entries, path) && IndexOf(entries, path) < |entries|
    requires self != {} || children != {}
    ensures GrantedForGood(names, entries, path, self, children) <==> Granting(names, entries, path, self, children)
  {
    hide Modes, Request, Run, Distinct, Granting;
    if Granting(names, entries, path, self, children) {
      forall ops, later: World |
        Named(names, ops) && (forall op | op in ops :: OnlyAccepts(op)) && later.statOk && later.kindOk
        ensures Request(Run(entries, ops), path, self, children, false, later) ==
                Result(Run(entries, ops), Granted, false)
      {
        StaysGranted(names, entries, path, self, children, ops);
        RequestDecides(Run(entries, ops), path, self, children, false, later);
      }
    }
    if GrantedForGood(names, entries, path, self, children) {
      MustBeGranting(names, entries, path, self, children);
    }
  }

  lemma {:induction false} MustBeGranting(names: string -> bool, entries: seq<Entry>, path: string, self: Mode,
                                          children: Mode)
    requires AllCStrings(names) && CStrings(entries, path) && (self != {} || children != {})
    requires GrantedForGood(names, entries, path, self, children)
    ensures Granting(names, entries, path, self, children)
  {
    hide Modes, Request, Run;
    var later := World(true, true, Reject);
    assert Named(names, []) && Run(entries, []) == entries by { NoRun(entries); }
    assert Request(Run(entries, []), path, self, children, false, later) == Result(Run(entries, []), Granted, false);
    RequestDecides(entries, path, self, children, false, later);
    if !AncestorsListed(names, entries, path) {
      var k :| 0 <= k < |path| && path[k] == '/' && names(path[..k]) && IndexOf(entries, path[..k]) == |entries|;
      var q := path[..k];
      BelowMeaning(q, path);
      AncestorOpened(entries, path, q);
      var ops := [Open(q)];
      assert Named(names, ops) && forall op | op in ops :: OnlyAccepts(op);
      assert Request(Run(entries, ops), path, self, children, false, later) ==
             Result(Run(entries, ops), Granted, false);
      RequestDecides(Run(entries, ops), path, self, children, false, later);
    }
  }

  lemma {:induction false} NoRun(entries: seq<Entry>)
    ensures Run(entries, []) == entries
  {
  }

  /** What the path itself and its children are granted once an answer to accept is remembered: both
      land in the flags for the path if it had an entry. */
  lemma {:induction false} ModesOnceAccepted(entries: seq<Entry>, path: string, s: Mode, c: Mode)
    requires Distinct(entries) && CStrings(entries, path)
    ensures var after := Added(entries, path, ModeSet({}, s, {}), ModeSet({}, c, {}));
            var p, p' := Modes(entries, path), Modes(after, path);
            if IndexOf(entries, path) == |entries| then
              && p'.self == p.self.(accept := p.self.accept + s)
              && p'.children == p.children.(accept := p.children.accept + c)
            else
              && p'.self == p.self.(accept := p.self.accept + s + c)
              && p'.children == if AncestorFollows(entries, path) then p'.self else p.children
  {
    var i, after := IndexOf(entries, path), Added(entries, path, ModeSet({}, s, {}), ModeSet({}, c, {}));
    if i == |entries| {
      ModesOfOwn(entries, path, ModeSet({}, s, {}), ModeSet({}, c, {}));
    } else {
      hide Modes, AncestorFollows, CStrings, Distinct;
      var more := ModeSet({}, s + c, {});
      assert Join(Join(entries[i].self, ModeSet({}, s, {})), ModeSet({}, c, {})) == Join(entries[i].self, more);
      assert after == entries[i := entries[i].(self := Join(entries[i].self, more))];
      OwnMerged(entries, path, i, more);
      AddedGrows(entries, path, ModeSet({}, s, {}), ModeSet({}, c, {}));
      AddedCStrings(entries, path, path, ModeSet({}, s, {}), ModeSet({}, c, {}));
      ModesForSelf(entries, path);
      ModesForChildren(entries, path);
      ModesForSelf(after, path);
      ModesForChildren(after, path);
    }
  }

  lemma {:induction false} ModesOfOwn(entries: seq<Entry>, path: string, self: ModeSet, children: ModeSet)
    requires NUL !in path
    ensures var p := Modes(entries, path);
            Modes(entries + [Entry(path, self, children)], path) ==
            PathModes(Join(p.self, self), Join(p.children, children))
  {
    NotBelowItself(path);
    var after := entries + [Entry(path, self, children)];
    assert after[..|after| - 1] == entries;
  }

  lemma {:induction false} ListedStill(names: string -> bool, entries: seq<Entry>, path: string, self: ModeSet,
                                       children: ModeSet)
    ensures var after := Added(entries, path, self, children);
            && IndexOf(after, path) < |after|
            && (AncestorsListed(names, after, path) <==> AncestorsListed(names, entries, path))
  {
    var after := Added(entries, path, self, children);
    AddedAt(entries, path, self, children);
    assert forall j | |entries| <= j < |after| :: after[j].path == path;
    forall k | 0 <= k < |path|
      ensures IndexOf(after, path[..k]) < |after| <==> IndexOf(entries, path[..k]) < |entries|
    {
      assert path[..k] != path;
      var q := path[..k];
      if IndexOf(entries, q) < |entries| {
        assert after[IndexOf(entries, q)].path == q;
      }
    }
    assert after[IndexOf(entries, path)].path == path;
  }

  /** When a request that was accepted with remembering stays granted: what was missing has been
      accepted, where it applies. If the path had an entry, what was accepted for its children went to
      the path itself, and applies to them only if an ancestor's entry follows. And if one can come
      to follow, what the path itself has must do for its children. */
  ghost predicate AcceptedLasting(names: string -> bool, entries: seq<Entry>, path: string, self: Mode, children: Mode,
                                  s: Mode, c: Mode) {
    var p, listed := Modes(entries, path), IndexOf(entries, path) < |entries|;
    var forSelf := p.self.accept + s + if listed then c else {};
    var forChildren := if !listed then p.children.accept + c
                       else if AncestorFollows(entries, path) then forSelf else p.children.accept;
    && self <= forSelf && children <= forChildren
    && (AncestorsListed(names, entries, path) || (children <= forSelf && p.self.reject * children == {}))
  }

  /** A request that was accepted with remembering is granted for good, as far as there are only
      answers to accept, if and only if that lasts. */
  lemma {:induction false} RequestAcceptanceIsPermanentIff(names: string -> bool, entries: seq<Entry>, path: string,
                                                           self: Mode, children: Mode, world: World)
    requires AllCStrings(names) && Distinct(entries) && CStrings(entries, path)
    requires Request(entries, path, self, children, false, world).prompted && world.answer == AcceptRemember
    ensures var p := Modes(entries, path);
            var s, c := Missing(p.self, self).rejected, Missing(p.children, children).rejected;
            var after := Request(entries, path, self, children, false, world).entries;
            GrantedForGood(names, after, path, self, children) <==>
            AcceptedLasting(names, entries, path, self, children, s, c)
  {
    PromptedAsks(entries, path, self, children, world);
    var p := Modes(entries, path);
    var s, c := Missing(p.self, self).rejected, Missing(p.children, children).rejected;
    var after := Added(entries, path, ModeSet({}, s, {}), ModeSet({}, c, {}));
    assert Request(entries, path, self, children, false, world).entries == after;
    hide Modes, Request, GrantedForGood, Granting, AcceptedLasting, Added, Distinct, CStrings, Missing;
    AddedGrows(entries, path, ModeSet({}, s, {}), ModeSet({}, c, {}));
    AddedCStrings(entries, path, path, ModeSet({}, s, {}), ModeSet({}, c, {}));
    ListedStill(names, entries, path, ModeSet({}, s, {}), ModeSet({}, c, {}));
    GrantedForGoodIff(names, after, path, self, children);
    LastingIsGranting(names, entries, path, self, children, s, c);
  }

  lemma {:induction false} LastingIsGranting(names: string -> bool, entries: seq<Entry>, path: string, self: Mode,
                                             children: Mode, s: Mode, c: Mode)
    requires Distinct(entries) && CStrings(entries, path) && !RejectedBy(Modes(entries, path), self, children)
    ensures Granting(names, Added(entries, path, ModeSet({}, s, {}), ModeSet({}, c, {})), path, self, children) <==>
            AcceptedLasting(names, entries, path, self, children, s, c)
  {
    hide Modes, Added, Distinct, CStrings, AncestorsListed, AncestorFollows;
    ListedStill(names, entries, path, ModeSet({}, s, {}), ModeSet({}, c, {}));
    ModesOnceAccepted(entries, path, s, c);
    if AncestorFollows(entries, path) {
      FollowedAreAlike(entries, path);
    }
  }

  /** With an entry for `/a`, a request for its children that is accepted for good is asked again
      right away, and whenever it is repeated. */
  lemma {:induction false} ChildrenAcceptanceForgotten(world: World)
    requires world.statOk && world.kindOk && world.answer == AcceptRemember
    ensures var r := Request([Entry("/a", EMPTY, EMPTY)], "/a", {}, {0}, false, world);
            && r == Result([Entry("/a", ModeSet({}, {0}, {}), EMPTY)], Granted, true)
            && Request(r.entries, "/a", {}, {0}, false, world) == r
  {
    var before, after := [Entry("/a", EMPTY, EMPTY)], [Entry("/a", ModeSet({}, {0}, {}), EMPTY)];
    NotBelowItself("/a");
    assert before[..0] == [] && after[..0] == [];
    assert Modes(before, "/a") == PathModes(EMPTY, EMPTY);
    assert Modes(after, "/a") == PathModes(ModeSet({}, {0}, {}), EMPTY);
    assert Act(EMPTY, {0}) == Action(RejectedPrompt, {0}, true) by { assert {0} * {0} == {0} && {0} - {} * {0} == {0}; }
    assert IndexOf(before, "/a") == IndexOf(after, "/a") == 0;
    assert Join(Join(after[0].self, EMPTY), ModeSet({}, {0}, {})) == after[0].self;
  }

  // ---------- the engine ----------

  class Engine {
    var entries: seq<Entry>

    constructor ()
      ensures entries == []
    {
      entries := [];
    }

    method Add(path: string, self: ModeSet, children: ModeSet) returns (index: nat)
      modifies this
      ensures entries == Added(old(entries), path, self, children)
      ensures index == IndexOf(old(entries), path) && index < |entries| && entries[index].path == path
    {
      var i := 0;
      while i < |entries|
        invariant i <= |entries| && entries == old(entries)
        invariant IndexOf(entries, path) == i + IndexOf(entries[i..], path)
      {
        if entries[i].path == path {
          entries := entries[i := entries[i].(self := Join(Join(entries[i].self, self), children))];
          return i;
        }
        assert entries[i..][1..] == entries[i + 1..];
        i := i + 1;
      }
      entries := entries + [Entry(path, self, children)];
      return i;
    }

    method GetMode(path: string, statOk: bool) returns (ok: bool, modes: PathModes)
      ensures ok == statOk && (ok ==> modes == Modes(entries, path))
    {
      var self, children := EMPTY, EMPTY;
      modes := PathModes(self, children);
      if !statOk {
        return false, modes;
      }
      var i := 0;
      while i < |entries|
        invariant i <= |entries| && PathModes(self, children) == Modes(entries[..i], path)
      {
        var e := entries[i];
        assert entries[..i + 1][..i] == entries[..i];
        i := i + 1;
        if Exact(e.path, path) {
          self := Join(self, e.self);
          children := Join(children, e.children);
          continue;
        }
        if !Below(e.path, path) {
          continue;
        }
        self := Join(self, e.children);
        children := Join(self, e.children);
      }
      assert entries[..i] == entries;
      return true, PathModes(self, children);
    }

    method PromptRequest(path: string, self: Mode, children: Mode, answer: Answer)
      returns (status: Status, prompted: bool)
      modifies this
      ensures Result(entries, status, prompted) == Prompt(old(entries), path, self, children, answer)
    {
      prompted := true;
      var index: nat;
      match answer
      case Accept => status := Granted;
      case Reject => status := RejectedUser;
      case AcceptRemember =>
        index := Add(path, ModeSet({}, self, {}), ModeSet({}, children, {}));
        status := Granted;
      case RejectRemember =>
        index := Add(path, ModeSet(self, {}, {}), ModeSet(children, {}, {}));
        status := RejectedUser;
      case Unsupported => status := RejectedPrompt;
      case PrompterFails => status := Failed;
    }

    method GateFile(path: string, mode: Mode, world: World) returns (status: Status, prompted: bool)
      modifies this
      ensures Result(entries, status, prompted) == Gate(old(entries), path, mode, world)
    {
      var ok, modes := GetMode(path, world.statOk);
      if !ok {
        return Failed, false;
      }
      var action := Act(modes.self, mode);
      status, prompted := action.status, false;
      if action.status == RejectedPrompt {
        if !world.kindOk {
          return Failed, false;
        }
        status, prompted := PromptRequest(path, action.rejected, {}, world.answer);
      }
    }

    method RequestNode(path: string, self: Mode, children: Mode, dryRun: bool, world: World)
      returns (status: Status, prompted: bool, wouldPrompt: bool)
      modifies this
      ensures Result(entries, status, prompted) == Request(old(entries), path, self, children, dryRun, world)
      ensures wouldPrompt ==> dryRun && entries == old(entries)
      ensures dryRun ==> (wouldPrompt <==> Request(old(entries), path, self, children, false, world).prompted)
    {
      wouldPrompt := false;
      if self == {} && children == {} {
        return NullRequest, false, false;
      }
      if !world.kindOk {
        return Failed, false, false;
      }
      var ok, modes := GetMode(path, world.statOk);
      if !ok {
        return Failed, false, false;
      }
      var self', children' := self, children;
      if self' != {} {
        var action := Act(modes.self, self');
        if action.status == Granted {
          self' := {};
        } else if action.status == RejectedPrompt {
          self' := action.rejected;
        } else {
          return action.status, false, false;
        }
      }
      if children' != {} {
        var action := Act(modes.children, children');
        if action.status == Granted {
          children' := {};
        } else if action.status == RejectedPrompt {
          children' := action.rejected;
        } else {
          return action.status, false, false;
        }
      }
      if self' == {} && children' == {} {
        return Granted, false, false;
      }
      if dryRun {
        return Granted, false, true;
      }
      status, prompted := PromptRequest(path, self', children', world.answer);
    }
  }
}
