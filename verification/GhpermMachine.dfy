/** The parser as a machine that takes one token at a time (src/ghost/perms/parser.c,
    lines 282-439): what it makes of every file, good or bad. */
module GhpermMachine {
  import opened Basics
  import opened GhpermLexer
  import opened PermFs
  import opened Ghperm

  /** Where in a file the machine is: outside of all sections, behind the words that start one,
      within one, behind the key of an entry, within the entry, behind the name of a field, and
      among the flags of a field. */
  datatype Spot =
    | Outside
    | Named(group: string)
    | Titled(group: string, name: string)
    | Within(resource: Resource)
    | Keyed(resource: Resource, index: nat)
    | Inside(resource: Resource, index: nat)
    | Valued(resource: Resource, index: nat, scope: Scope)
    | Flagged(index: nat, scope: Scope, verdict: Verdict)

  datatype Turn = Goes(spot: Spot, store: Store) | Halts(status: ParseStatus, store: Store)

  predicate Fits(spot: Spot, store: Store) {
    match spot
    case Keyed(resource, index) => Indexes(resource, store, index)
    case Inside(resource, index) => Indexes(resource, store, index)
    case Valued(resource, index, _) => Indexes(resource, store, index)
    case Flagged(index, _, _) => index < |store.fs|
    case _ => true
  }

  predicate IsName(t: Token) {
    t.Identifier? && |t.text| < ID_MAX
  }

  function TakeInside(resource: Resource, index: nat, t: Token, store: Store): (r: Turn)
    requires Indexes(resource, store, index)
    ensures r.Goes? ==> Fits(r.spot, r.store)
  {
    if t == RBrace then Goes(Within(resource), store)
    else if !t.Identifier? then Halts(ExpectedField, store)
    else if !IsName(t) then Halts(LargeField, store)
    else if resource == Filesystem && t.text == "self" then Goes(Valued(resource, index, Self), store)
    else if resource == Filesystem && t.text == "children" then Goes(Valued(resource, index, Children), store)
    else if resource == Exec && t.text == "mode" then Goes(Valued(resource, index, Self), store)
    else Halts(UnknownField, store)
  }

  function TakeValue(resource: Resource, index: nat, scope: Scope, t: Token, store: Store): (r: Turn)
    requires Indexes(resource, store, index)
    ensures r.Goes? ==> Fits(r.spot, r.store)
  {
    if !t.Identifier? then Halts(ExpectedIdentifier, store)
    else if VerdictOf(t.text).None? then Halts(ResourceError, store)
    else
      var verdict := VerdictOf(t.text).value;
      match resource
      case Filesystem => Goes(Flagged(index, scope, verdict), store)
      case Exec =>
        var e := store.exec[index].(mode := ExecModeOf(verdict));
        Goes(Inside(Exec, index), store.(exec := store.exec[index := e]))
  }

  /** What one token does. */
  function Take(spot: Spot, t: Token, store: Store): (r: Turn)
    requires Fits(spot, store)
    ensures r.Goes? ==> Fits(r.spot, r.store)
  {
    match spot
    case Outside =>
      if IsName(t) then Goes(Named(t.text), store)
      else Halts(if t.Identifier? then LargeGroupId else ExpectedGroupId, store)
    case Named(group) =>
      if IsName(t) then Goes(Titled(group, t.text), store)
      else Halts(if t.Identifier? then LargeResourceId else ExpectedResourceId, store)
    case Titled(group, name) =>
      if t != LBrace then Halts(ExpectedResourceBegin, store)
      else if ResourceOf(group, name).None? then Halts(UnknownResource, store)
      else Goes(Within(ResourceOf(group, name).value), store)
    case Within(resource) =>
      if t == RBrace then Goes(Outside, store)
      else if !t.Text? then Halts(ExpectedEntry, store)
      else
        var entered := OpenEntry(resource, store, t.text);
        if entered.NoHash? then Halts(NotHash, store) else Goes(Keyed(resource, entered.index), entered.store)
    case Keyed(resource, index) =>
      if t == LBrace then Goes(Inside(resource, index), store) else Halts(ExpectedEntryBegin, store)
    case Inside(resource, index) => TakeInside(resource, index, t, store)
    case Valued(resource, index, scope) => TakeValue(resource, index, scope, t, store)
    case Flagged(index, scope, verdict) =>
      if !t.Text? then TakeInside(Filesystem, index, t, store)
      else if FlagOf(t.text).None? then Halts(ResourceError, store)
      else Goes(spot, SetFsField(store, index, scope, verdict, {FlagOf(t.text).value}))
  }

  /** What the end of the file means: only outside of all sections it is welcome. */
  function AtEnd(spot: Spot): ParseStatus {
    match spot
    case Outside => Good
    case Named(_) => ExpectedResourceId
    case Titled(_, _) => ExpectedResourceBegin
    case Within(_) => ExpectedEntry
    case Keyed(_, _) => ExpectedEntryBegin
    case Inside(_, _) => ExpectedEntryEnd
    case Valued(_, _, _) => ExpectedIdentifier
    case Flagged(_, _, _) => ExpectedEntryEnd
  }

  datatype Judgement = Judgement(status: ParseStatus, store: Store)

  function Judge(spot: Spot, ts: Stream, store: Store): Judgement
    requires Fits(spot, store)
    decreases ts
  {
    match ts
    case Broken(e) => Judgement(Lexical(e), store)
    case End => Judgement(AtEnd(spot), store)
    case More(t, rest) =>
      var turn := Take(spot, t, store);
      match turn
      case Halts(status, store') => Judgement(status, store')
      case Goes(spot', store') => Judge(spot', rest, store')
  }

  /** What is judged once a part of the file has been parsed. */
  function Then(r: Parsed, spot: Spot): Judgement
    requires Fits(spot, r.store)
  {
    if r.status == Good then Judge(spot, r.rest, r.store) else Judgement(r.status, r.store)
  }

  lemma {:induction false} FlagsJudged(ts: Stream, store: Store, index: nat, scope: Scope, verdict: Verdict)
    requires index < |store.fs|
    ensures Judge(Flagged(index, scope, verdict), ts, store) ==
            Then(ParseFlags(ts, store, index, scope, verdict), Inside(Filesystem, index))
    decreases ts
  {
    hide SetFsField;
    if ts.More? && ts.token.Text? && FlagOf(ts.token.text).Some? {
      var next := SetFsField(store, index, scope, verdict, {FlagOf(ts.token.text).value});
      FlagsJudged(ts.rest, next, index, scope, verdict);
    }
  }

  lemma {:induction false} FieldsJudged(resource: Resource, ts: Stream, store: Store, index: nat)
    requires Indexes(resource, store, index)
    ensures Judge(Inside(resource, index), ts, store) ==
            Then(ParseFields(resource, ts, store, index), Within(resource))
    decreases Length(ts)
  {
    hide ParseFlags;
    if ts.More? && IsName(ts.token) {
      var r := match resource
        case Filesystem => ParseFsField(ts.rest, store, index, ts.token.text)
        case Exec => ParseExecField(ts.rest, store, index, ts.token.text);
      if resource == Filesystem && ts.rest.More? && ts.rest.token.Identifier? {
        var verdict := VerdictOf(ts.rest.token.text);
        if verdict.Some? {
          FlagsJudged(ts.rest.rest, store, index, if ts.token.text == "self" then Self else Children, verdict.value);
        }
      }
      if r.status == Good {
        FieldsJudged(resource, r.rest, r.store, index);
      }
    }
  }

  lemma {:induction false} EntriesJudged(resource: Resource, ts: Stream, store: Store)
    ensures Judge(Within(resource), ts, store) == Then(ParseEntries(resource, ts, store), Outside)
    decreases Length(ts)
  {
    hide ParseFields, OpenEntry;
    if ts.More? && ts.token.Text? {
      var entered := OpenEntry(resource, store, ts.token.text);
      if entered.Entered? && ts.rest.More? && ts.rest.token == LBrace {
        assert Length(ts) == 2 + Length(ts.rest.rest);
        FieldsJudged(resource, ts.rest.rest, entered.store, entered.index);
        var r := ParseFields(resource, ts.rest.rest, entered.store, entered.index);
        if r.status == Good {
          EntriesJudged(resource, r.rest, r.store);
        }
      }
    }
  }

  lemma {:induction false} ResourceJudged(ts: Stream, store: Store)
    requires ts.More?
    ensures Judge(Outside, ts, store) == Then(ParseResource(ts, store), Outside)
  {
    hide ParseEntries, ResourceOf;
    var g, next := ts.token, ts.rest;
    if next.More? && IsName(g) {
      var n := next.token;
      assert Judge(Outside, ts, store) == Judge(Named(g.text), next, store);
      if IsName(n) {
        TitleJudged(g.text, n.text, next.rest, store);
        assert Judge(Named(g.text), next, store) == Judge(Titled(g.text, n.text), next.rest, store);
      }
    }
  }

  lemma {:induction false} TitleJudged(group: string, name: string, ts: Stream, store: Store)
    requires |group| < ID_MAX && |name| < ID_MAX
    ensures Judge(Titled(group, name), ts, store) ==
            Then(ParseResource(More(Identifier(group), More(Identifier(name), ts)), store), Outside)
  {
    hide ParseEntries, ResourceOf;
    if ts.More? && ResourceOf(group, name).Some? {
      EntriesJudged(ResourceOf(group, name).value, ts.rest, store);
    }
  }

  /** Every file, good or bad: the parser ends as the machine does, with the same store. */
  lemma {:induction false} ParsesAsJudged(ts: Stream, store: Store)
    ensures var r := ParseAll(ts, store); Judge(Outside, ts, store) == Judgement(r.status, r.store)
    decreases Length(ts)
  {
    hide ParseResource, Take;
    if ts.More? {
      ResourceJudged(ts, store);
      var r := ParseResource(ts, store);
      if r.status == Good {
        ParsesAsJudged(r.rest, r.store);
      }
    }
  }
}
