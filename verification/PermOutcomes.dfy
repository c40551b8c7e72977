/** What comes out of gates and requests, whatever the user answers, and why a flag is set
    (src/ghost/perms/permfs.c, lines 333-530). */
module PermOutcomes {
  import opened PermFs

  predicate SaysYes(answer: Answer) {
    answer == Answer.Accept || answer == AcceptRemember
  }

  predicate SaysNo(answer: Answer) {
    answer == Answer.Reject || answer == RejectRemember
  }

  predicate Remembers(answer: Answer) {
    answer == AcceptRemember || answer == RejectRemember
  }

  // ---------- at once ----------

  /** What the caller and the entries are told of an answer, for whatever has been asked. */
  ghost predicate AnswerHeeded(r: Result, entries: seq<Entry>, answer: Answer) {
    && (r.status == Granted <==> SaysYes(answer))
    && (r.status == RejectedUser <==> SaysNo(answer))
    && (r.status == PermFs.RejectedPrompt <==> answer == Unsupported)
    && (r.status == PermFs.Failed <==> answer == PrompterFails)
    && (!Remembers(answer) ==> r.entries == entries)
  }

  /** Every gate: it goes through if and only if nothing of the mode is rejected, and all of it is
      accepted, or the user says yes now. The user is asked only where there is nothing else to
      go by; and the entries stay as they are, unless the answer is to be remembered. */
  lemma {:induction false} GateGrantsIff(entries: seq<Entry>, path: string, mode: Mode, world: World)
    ensures var own, r := Modes(entries, path).self, Gate(entries, path, mode, world);
            var silent := mode != {} && AllGranted(own, mode);
            var asked := world.statOk && world.kindOk && own.reject * mode == {} && !silent;
            && (r.prompted <==> asked)
            && (r.status == Granted <==> (world.statOk && silent) || (asked && SaysYes(world.answer)))
            && (r.status == RejectedPolicy <==> world.statOk && own.reject * mode != {})
            && (asked ==> AnswerHeeded(r, entries, world.answer))
            && (!asked ==> r.entries == entries && r.status in {Granted, RejectedPolicy, PermFs.Failed})
  {
    hide Modes, Added;
    var own := Modes(entries, path).self;
    assert own.accept * mode == mode <==> mode <= own.accept;
  }

  /** Every request, likewise; one for nothing is an error, and a dry run asks nobody, but says
      yes where it would ask. */
  lemma {:induction false} RequestGrantsIff(entries: seq<Entry>, path: string, self: Mode, children: Mode,
                                            dryRun: bool, world: World)
    ensures var p, r := Modes(entries, path), Request(entries, path, self, children, dryRun, world);
            var nothing, known := self == {} && children == {}, world.statOk && world.kindOk;
            var rejected := p.self.reject * self != {} || p.children.reject * children != {};
            var silent := AllGranted(p.self, self) && AllGranted(p.children, children);
            var asked := !nothing && known && !rejected && !silent && !dryRun;
            && (r.prompted <==> asked)
            && (r.status == NullRequest <==> nothing)
            && (r.status == RejectedPolicy <==> !nothing && known && rejected)
            && (r.status == Granted <==>
                  !nothing && known && !rejected && (silent || dryRun || SaysYes(world.answer)))
            && (asked ==> AnswerHeeded(r, entries, world.answer))
            && (!asked ==> r.entries == entries && r.status in {Granted, RejectedPolicy, NullRequest, PermFs.Failed})
  {
    hide Modes, Act, Added;
    var p := Modes(entries, path);
    if self != {} { ActDecides(p.self, self); }
    if children != {} { ActDecides(p.children, children); }
  }

  // ---------- over runs ----------

  function BitsOf(modes: ModeSet, verdict: Verdict): Mode {
    match verdict
    case AcceptFlag => modes.accept
    case RejectFlag => modes.reject
    case PromptFlag => modes.prompt
  }

  /** The entry for the path sets the flag, for the path itself or for what is in it. */
  ghost predicate Has(entries: seq<Entry>, path: string, verdict: Verdict, bit: Bit) {
    exists e | e in entries :: e.path == path && bit in BitsOf(e.self, verdict) + BitsOf(e.children, verdict)
  }

  /** What the user is shown. */
  function Shown(entries: seq<Entry>, op: Op): Mode {
    match op
    case GateFile(path, mode, _) => Act(Modes(entries, path).self, mode).rejected
    case RequestNode(path, self, children, _, _) =>
      Missing(Modes(entries, path).self, self).rejected + Missing(Modes(entries, path).children, children).rejected
    case _ => {}
  }

  /** The operation says so: the user was asked about this flag of this path, and wants the answer
      to be remembered; or a file has it in an entry for the path. */
  predicate Says(entries: seq<Entry>, op: Op, path: string, verdict: Verdict, bit: Bit) {
    op.path == path &&
    match op
    case GateFile(_, _, world) =>
      Step(entries, op).prompted && Taught(world.answer, verdict) && bit in Shown(entries, op)
    case RequestNode(_, _, _, _, world) =>
      Step(entries, op).prompted && Taught(world.answer, verdict) && bit in Shown(entries, op)
    case Open(_) => false
    case Field(_, _, v, bits) => IndexOf(entries, path) < |entries| && v == verdict && bit in bits
  }

  predicate Taught(answer: Answer, verdict: Verdict) {
    (answer == AcceptRemember && verdict == AcceptFlag) || (answer == RejectRemember && verdict == RejectFlag)
  }

  lemma {:induction false} HasAt(entries: seq<Entry>, path: string, verdict: Verdict, bit: Bit)
    requires Distinct(entries)
    ensures var i := IndexOf(entries, path);
            Has(entries, path, verdict, bit) <==>
            i < |entries| && bit in BitsOf(entries[i].self, verdict) + BitsOf(entries[i].children, verdict)
  {
    hide BitsOf;
    var i := IndexOf(entries, path);
    if i < |entries| {
      assert entries[i] in entries;
      forall e | e in entries && e.path == path ensures e == entries[i] {
        var j :| 0 <= j < |entries| && entries[j] == e;
      }
    }
  }

  lemma {:induction false} IndexAdded(entries: seq<Entry>, path: string, self: ModeSet, children: ModeSet, at: string)
    ensures var after := Added(entries, path, self, children);
            IndexOf(after, at) ==
            if at == path || IndexOf(entries, at) < |entries| then IndexOf(entries, at) else |after|
  {
    var after := Added(entries, path, self, children);
    var i := IndexOf(entries, at);
    if i < |entries| {
      assert after[i].path == at;
    } else if at != path {
      assert forall j | 0 <= j < |after| :: after[j].path != at;
    } else {
      assert after[i].path == at;
    }
  }

  lemma {:induction false} AddedHas(entries: seq<Entry>, path: string, self: ModeSet, children: ModeSet, at: string,
                                    verdict: Verdict, bit: Bit)
    requires Distinct(entries)
    ensures Has(Added(entries, path, self, children), at, verdict, bit) <==>
            Has(entries, at, verdict, bit) ||
            (at == path && bit in BitsOf(self, verdict) + BitsOf(children, verdict))
  {
    hide Has;
    AddedGrows(entries, path, self, children);
    IndexAdded(entries, path, self, children, at);
    HasAt(entries, at, verdict, bit);
    HasAt(Added(entries, path, self, children), at, verdict, bit);
    hide IndexOf, Distinct;
  }

  lemma {:induction false} FieldHas(entries: seq<Entry>, op: Op, at: string, verdict: Verdict, bit: Bit)
    requires Distinct(entries) && op.Field?
    ensures Has(Step(entries, op).entries, at, verdict, bit) <==>
            Has(entries, at, verdict, bit) || Says(entries, op, at, verdict, bit)
  {
    hide Has;
    var after := Step(entries, op).entries;
    StepGrows(entries, op);
    HasAt(entries, at, verdict, bit);
    HasAt(after, at, verdict, bit);
    var i := IndexOf(entries, at);
    assert IndexOf(after, at) == i by {
      var j := IndexOf(after, at);
      if i < |entries| {
        assert after[i].path == at;
      }
      if j < |after| {
        assert entries[j].path == at;
      }
    }
    hide IndexOf, Distinct;
  }

  lemma {:induction false} StepHas(entries: seq<Entry>, op: Op, path: string, verdict: Verdict, bit: Bit)
    requires Distinct(entries)
    ensures Has(Step(entries, op).entries, path, verdict, bit) <==>
            Has(entries, path, verdict, bit) || Says(entries, op, path, verdict, bit)
  {
    hide Modes, Added, Has, Act, Missing;
    match op
    case GateFile(at, mode, world) =>
      var shown := Act(Modes(entries, at).self, mode).rejected;
      AddedHas(entries, at, ModeSet({}, shown, {}), EMPTY, path, verdict, bit);
      AddedHas(entries, at, ModeSet(shown, {}, {}), EMPTY, path, verdict, bit);
    case RequestNode(at, self, children, dryRun, world) =>
      var modes := Modes(entries, at);
      var s, c := Missing(modes.self, self).rejected, Missing(modes.children, children).rejected;
      AddedHas(entries, at, ModeSet({}, s, {}), ModeSet({}, c, {}), path, verdict, bit);
      AddedHas(entries, at, ModeSet(s, {}, {}), ModeSet(c, {}, {}), path, verdict, bit);
    case Open(at) => AddedHas(entries, at, EMPTY, EMPTY, path, verdict, bit);
    case Field(_, _, _, _) => FieldHas(entries, op, path, verdict, bit);
  }

  /** Over every run: a flag of a path is set if and only if it was, or the user was asked about it
      there and had the answer remembered, or a file set it. */
  lemma {:induction false} FlagsHaveAReason(entries: seq<Entry>, ops: seq<Op>, path: string, verdict: Verdict, bit: Bit)
    requires Distinct(entries)
    ensures Has(Run(entries, ops), path, verdict, bit) <==>
            Has(entries, path, verdict, bit) ||
            exists k | 0 <= k < |ops| :: Says(Run(entries, ops[..k]), ops[k], path, verdict, bit)
    decreases |ops|
  {
    hide Step, Has, Says, Distinct;
    if ops != [] {
      var next := Step(entries, ops[0]).entries;
      StepGrows(entries, ops[0]);
      StepHas(entries, ops[0], path, verdict, bit);
      FlagsHaveAReason(next, ops[1..], path, verdict, bit);
      assert Run(entries, ops[..0]) == entries;
      forall k | 0 <= k < |ops[1..]| ensures Run(next, ops[1..][..k]) == Run(entries, ops[..k + 1]) {
        assert ops[..k + 1][0] == ops[0] && ops[..k + 1][1..] == ops[1..][..k];
      }
      if k :| 0 <= k < |ops| && Says(Run(entries, ops[..k]), ops[k], path, verdict, bit) {
        if k > 0 {
          assert Says(Run(next, ops[1..][..k - 1]), ops[1..][k - 1], path, verdict, bit);
        }
      }
      if k :| 0 <= k < |ops[1..]| && Says(Run(next, ops[1..][..k]), ops[1..][k], path, verdict, bit) {
        assert Says(Run(entries, ops[..k + 1]), ops[k + 1], path, verdict, bit);
      }
      if Says(entries, ops[0], path, verdict, bit) {
        assert Says(Run(entries, ops[..0]), ops[0], path, verdict, bit);
      }
    }
  }
}
