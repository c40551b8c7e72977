/** Reading a store file is a run of the engine's operations, whatever the file. */
module GhpermLoad {
  import opened GhpermLexer
  import opened PermFs
  import opened Ghperm

  ghost predicate CleanPaths(entries: seq<Entry>) {
    forall i | 0 <= i < |entries| :: Clean(entries[i].path)
  }

  /** An operation that reading a file amounts to. */
  ghost predicate Loading(op: Op) {
    (op.Open? && Clean(op.path)) || op.Field?
  }

  ghost predicate AllLoading(ops: seq<Op>) {
    forall i | 0 <= i < |ops| :: Loading(ops[i])
  }

  /** `b` is what a run of loading operations makes of `a`. */
  ghost predicate Loads(a: seq<Entry>, ops: seq<Op>, b: seq<Entry>) {
    AllLoading(ops) && Run(a, ops) == b && Distinct(b) && (CleanPaths(a) ==> CleanPaths(b))
  }

  lemma {:induction false} RunConcat(entries: seq<Entry>, a: seq<Op>, b: seq<Op>)
    ensures Run(entries, a + b) == Run(Run(entries, a), b)
    decreases |a|
  {
    hide Step;
    if a == [] {
      assert a + b == b;
    } else {
      RunConcat(Step(entries, a[0]).entries, a[1..], b);
      assert (a + b)[1..] == a[1..] + b;
    }
  }

  lemma {:induction false} LoadsConcat(a: seq<Entry>, x: seq<Op>, b: seq<Entry>, y: seq<Op>, c: seq<Entry>)
    requires Loads(a, x, b) && Loads(b, y, c)
    ensures Loads(a, x + y, c)
  {
    hide Run, Distinct, CleanPaths, Loading;
    RunConcat(a, x, y);
  }

  lemma {:induction false} LoadsOne(entries: seq<Entry>, op: Op)
    requires Distinct(entries) && Loading(op)
    ensures Loads(entries, [op], Step(entries, op).entries)
  {
    StepGrows(entries, op);
    var after := Step(entries, op).entries;
    hide Distinct;
    assert [op][1..] == [];
    assert Run(entries, [op]) == Run(after, []) == after;
  }

  lemma {:induction false} LoadsNothing(entries: seq<Entry>)
    requires Distinct(entries)
    ensures Loads(entries, [], entries)
  {
  }

  lemma {:induction false} FieldLoads(store: Store, index: nat, scope: Scope, verdict: Verdict, bits: Mode)
    requires Distinct(store.fs) && index < |store.fs|
    ensures Loads(store.fs, [Field(store.fs[index].path, scope, verdict, bits)],
            SetFsField(store, index, scope, verdict, bits).fs)
  {
  }

  lemma {:induction false} FlagsLoad(ts: Stream, store: Store, index: nat, scope: Scope, verdict: Verdict)
    returns (ops: seq<Op>)
    requires Distinct(store.fs) && CleanTexts(ts) && index < |store.fs|
    ensures var r := ParseFlags(ts, store, index, scope, verdict);
            Loads(store.fs, ops, r.store.fs) && CleanTexts(r.rest)
    decreases ts
  {
    hide SetFsField, Run, Distinct, CleanPaths, AllLoading;
    LoadsNothing(store.fs);
    ops := [];
    if ts.More? && ts.token.Text? && FlagOf(ts.token.text).Some? {
      var bits: Mode := {FlagOf(ts.token.text).value};
      FieldLoads(store, index, scope, verdict, bits);
      var next := SetFsField(store, index, scope, verdict, bits);
      var more := FlagsLoad(ts.rest, next, index, scope, verdict);
      LoadsConcat(store.fs, [Field(store.fs[index].path, scope, verdict, bits)], next.fs, more,
                  ParseFlags(ts, store, index, scope, verdict).store.fs);
      ops := [Field(store.fs[index].path, scope, verdict, bits)] + more;
    }
  }

  lemma {:induction false} OneFieldLoads(resource: Resource, ts: Stream, store: Store, index: nat, field: string)
    returns (ops: seq<Op>)
    requires Distinct(store.fs) && CleanTexts(ts) && Indexes(resource, store, index)
    ensures var r := match resource
                     case Filesystem => ParseFsField(ts, store, index, field)
                     case Exec => ParseExecField(ts, store, index, field);
            Loads(store.fs, ops, r.store.fs) && CleanTexts(r.rest)
  {
    hide Loads, ParseFlags, Distinct;
    LoadsNothing(store.fs);
    ops := [];
    if resource == Filesystem && (field == "self" || field == "children") && ts.More? && ts.token.Identifier?
      && VerdictOf(ts.token.text).Some? {
      ops := FlagsLoad(ts.rest, store, index, if field == "self" then Self
          else Children, VerdictOf(ts.token.text).value);
    }
  }

  lemma {:induction false} FieldsLoad(resource: Resource, ts: Stream, store: Store, index: nat) returns (ops: seq<Op>)
    requires Distinct(store.fs) && CleanTexts(ts) && Indexes(resource, store, index)
    ensures var r := ParseFields(resource, ts, store, index); Loads(store.fs, ops, r.store.fs) && CleanTexts(r.rest)
    decreases Length(ts)
  {
    hide ParseFsField, ParseExecField, Run, Distinct, CleanPaths, AllLoading;
    LoadsNothing(store.fs);
    ops := [];
    if ts.More? && ts.token.Identifier? && |ts.token.text| < ID_MAX {
      ops := OneFieldLoads(resource, ts.rest, store, index, ts.token.text);
      var r := match resource
        case Filesystem => ParseFsField(ts.rest, store, index, ts.token.text)
        case Exec => ParseExecField(ts.rest, store, index, ts.token.text);
      if r.status == Good {
        var more := FieldsLoad(resource, r.rest, r.store, index);
        LoadsConcat(store.fs, ops, r.store.fs, more, ParseFields(resource, r.rest, r.store, index).store.fs);
        ops := ops + more;
      }
    }
  }

  lemma {:induction false} EntriesLoad(resource: Resource, ts: Stream, store: Store) returns (ops: seq<Op>)
    requires Distinct(store.fs) && CleanTexts(ts)
    ensures var r := ParseEntries(resource, ts, store); Loads(store.fs, ops, r.store.fs) && CleanTexts(r.rest)
    decreases Length(ts)
  {
    hide ParseFields, Run, Distinct, CleanPaths, AllLoading, Added;
    LoadsNothing(store.fs);
    ops := [];
    if ts.More? && ts.token.Text? && OpenEntry(resource, store, ts.token.text).Entered? {
      var Entered(store', index) := OpenEntry(resource, store, ts.token.text);
      if resource == Filesystem {
        ops := [Open(ts.token.text)];
        LoadsOne(store.fs, ops[0]);
      }
      assert Loads(store.fs, ops, store'.fs);
      var rest := ts.rest;
      if rest.More? && rest.token == LBrace {
        var fields := FieldsLoad(resource, rest.rest, store', index);
        var r := ParseFields(resource, rest.rest, store', index);
        LoadsConcat(store.fs, ops, store'.fs, fields, r.store.fs);
        ops := ops + fields;
        if r.status == Good {
          assert Length(rest) == 1 + Length(rest.rest);
          var more := EntriesLoad(resource, r.rest, r.store);
          LoadsConcat(store.fs, ops, r.store.fs, more, ParseEntries(resource, r.rest, r.store).store.fs);
          ops := ops + more;
        }
      }
    }
  }

  lemma {:induction false} ResourceLoads(ts: Stream, store: Store) returns (ops: seq<Op>)
    requires Distinct(store.fs) && CleanTexts(ts) && ts.More?
    ensures var r := ParseResource(ts, store); Loads(store.fs, ops, r.store.fs) && CleanTexts(r.rest)
  {
    hide ParseEntries, Loads, Distinct, Clean;
    LoadsNothing(store.fs);
    ops := [];
    var rest := ts.rest;
    assert CleanTexts(rest);
    if ts.token.Identifier? && rest.More? {
      assert CleanTexts(rest.rest);
      if rest.token.Identifier? && rest.rest.More? && rest.rest.token == LBrace {
        assert CleanTexts(rest.rest.rest);
        var resource := ResourceOf(ts.token.text, rest.token.text);
        if |ts.token.text| < ID_MAX && |rest.token.text| < ID_MAX && resource.Some? {
          ops := EntriesLoad(resource.value, rest.rest.rest, store);
        }
      }
    }
  }

  /** Every file: the filesystem entries afterwards, good or bad end, are those of a run
      of the engine that opens clean paths and sets fields. */
  lemma {:induction false} ParseIsRun(ts: Stream, store: Store) returns (ops: seq<Op>)
    requires Distinct(store.fs) && CleanTexts(ts)
    ensures Loads(store.fs, ops, ParseAll(ts, store).store.fs)
    decreases Length(ts)
  {
    hide ParseEntries, Run, Distinct, CleanPaths, AllLoading;
    LoadsNothing(store.fs);
    ops := [];
    if ts.More? {
      var r := ParseResource(ts, store);
      ops := ResourceLoads(ts, store);
      if r.status == Good {
        var more := ParseIsRun(r.rest, r.store);
        LoadsConcat(store.fs, ops, r.store.fs, more, ParseAll(r.rest, r.store).store.fs);
        ops := ops + more;
      }
    }
  }
}
