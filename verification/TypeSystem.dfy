/** The type system object and its in-place algorithms (typesystem.c), proved
    against the functions of TypeTable and DeepCopy. */
module TypeSystem {
  import opened Basics
  import opened Memory
  import opened TypeTable
  import opened DeepCopy
  import opened TypeNames

  /** `gh_bytebuffer`, with its memory at a fixed address. */
  class ByteBuffer {
    const base: nat
    const data: array<Byte>
    var size: nat

    function State(): Buf
      reads this, data
    {
      Buf(data[..], size)
    }

    /** Copies a block of bytes into the buffer's memory. */
    method Write(at: nat, bytes: seq<Byte>) returns (status: Status)
      modifies data
      ensures Copied(status, State()) == Store(old(State()), at, bytes)
    {
      if at + |bytes| > data.Length {
        return Fault;
      }
      forall i | 0 <= i < |bytes| {
        data[at + i] := bytes[i];
      }
      assert data[..] == Splice(old(data[..]), at, bytes);
      return Good;
    }

    /** `gh_bytebuffer_expand` */
    method Expand(n: nat) returns (status: Status, at: nat)
      modifies this`size
      ensures at == old(size)
      ensures if old(size) + n > data.Length then status == MaxCapacity && State() == old(State())
              else status == Good && State() == old(State()).(size := old(size) + n)
    {
      at := size;
      if size + n > data.Length {
        return MaxCapacity, at;
      }
      size := size + n;
      return Good, at;
    }
  }

  lemma {:induction false} NoFields(types: seq<TsType>, remote: Mem, base: nat, buf: Buf, at: nat, a: nat, depth: nat)
    ensures CopyFields(types, remote, [], base, buf, at, a, depth) == DeepCopy.Copied(Good, buf)
  {
  }

  lemma {:induction false} OneMoreField(types: seq<TsType>, remote: Mem, fields: seq<Field>, i: nat, base: nat,
                                        buf: Buf, at: nat, a: nat, depth: nat)
    requires i < |fields|
    ensures var front, e := CopyFields(types, remote, fields[..i], base, buf, at, a, depth),
                            Resolve(types, fields[i].typeName);
            front.status == Good ==>
              CopyFields(types, remote, fields[..i + 1], base, buf, at, a, depth) ==
              if e.Fail? then DeepCopy.Copied(e.error, front.buf)
              else Copy(types, remote, e.value.kind, e.value.size, base, front.buf, at + fields[i].offset,
                        a + fields[i].offset, depth)
  {
    hide DeepCopy.Copy, Resolve;
    assert fields[..i + 1][..i] == fields[..i];
  }

  lemma {:induction false} FailedPrefix(types: seq<TsType>, remote: Mem, fields: seq<Field>, i: nat, base: nat,
                                        buf: Buf, at: nat, a: nat, depth: nat)
    requires i <= |fields| && CopyFields(types, remote, fields[..i], base, buf, at, a, depth).status != Good
    ensures CopyFields(types, remote, fields, base, buf, at, a, depth) ==
            CopyFields(types, remote, fields[..i], base, buf, at, a, depth)
    decreases |fields| - i
  {
    if i < |fields| {
      assert fields[..i + 1][..i] == fields[..i];
      FailedPrefix(types, remote, fields, i + 1, base, buf, at, a, depth);
    } else {
      assert fields[..i] == fields;
    }
  }

  class TypeSystem {
    var types: seq<TsType>

    /** `gh_ts_findbyname` */
    method FindByName(name: string) returns (r: Outcome<TsType>)
      ensures r == Find(types, name)
    {
      if name == "" {
        return Fail(EmptyName);
      }
      var i := 0;
      while i < |types|
        invariant i <= |types|
        invariant Find(types[i..], name) == Find(types, name)
      {
        if types[i].name == name {
          return Okay(types[i]);
        }
        assert types[i..][1..] == types[i + 1..];
        i := i + 1;
      }
      return Fail(MissingType);
    }

    /** `gh_ts_sizet` */
    method SizeT(k: Kind, seen: set<string>) returns (r: Outcome<nat>)
      ensures r == SizeVia(types, k, seen)
      decreases Names(types) - seen
    {
      match k
      case Invalid => return Fail(InvalidType);
      case Primitive(size) => return Okay(size);
      case StaticArray(count, element) =>
        var t := FindByName(element);
        if t.Fail? {
          return Fail(t.error);
        }
        if element in seen {
          return Fail(TooDeep);
        }
        var s := SizeT(t.value.kind, seen + {element});
        return if s.Fail? then s else Okay(count * s.value);
      case Struct(size, _) => return Okay(size);
      case TaggedUnion(size, _) => return Okay(TAG_SIZE + size);
      case Pointer(_) => return Okay(POINTER_SIZE);
      case ArrayPointer(_) => return Okay(POINTER_SIZE);
    }

    method ResolveName(name: string) returns (r: Outcome<Element>)
      ensures r == Resolve(types, name)
    {
      var t := FindByName(name);
      if t.Fail? {
        return Fail(t.error);
      }
      var s := SizeT(t.value.kind, {});
      return if s.Fail? then Fail(s.error) else Okay(Element(t.value.kind, s.value));
    }

    /** The retrieve callback: reads foreign memory into the buffer. */
    method FetchInto(remote: Mem, a: nat, n: nat, buffer: ByteBuffer, at: nat) returns (status: Status)
      modifies buffer.data
      ensures Copied(status, buffer.State()) == Fetch(remote, a, n, old(buffer.State()), at)
    {
      if !Has(remote, a, n) {
        return ReadFailed;
      }
      status := buffer.Write(at, Bytes(remote, a, n));
    }

    /** `ts_retrieve` */
    method RetrieveInto(remote: Mem, k: Kind, n: nat, buffer: ByteBuffer, at: nat, a: nat, depth: nat)
      returns (status: Status)
      modifies buffer, buffer.data
      ensures Copied(status, buffer.State()) ==
              Copy(types, remote, k, n, buffer.base, old(buffer.State()), at, a, depth)
      decreases depth, 1
    {
      match k
      case Invalid => status := InvalidType;
      case Struct(_, fields) =>
        if depth == 0 {
          return TooDeep;
        }
        status := RetrieveFields(remote, fields, buffer, at, a, depth - 1);
      case Pointer(element) => status := RetrievePointer(remote, k, buffer, at, a, depth);
      case ArrayPointer(element) => status := RetrieveArrayPointer(remote, k, buffer, at, a, depth);
      case _ => status := FetchInto(remote, a, n, buffer, at);
    }

    method RetrieveFields(remote: Mem, fields: seq<Field>, buffer: ByteBuffer, at: nat, a: nat, depth: nat)
      returns (status: Status)
      modifies buffer, buffer.data
      ensures Copied(status, buffer.State()) ==
              CopyFields(types, remote, fields, buffer.base, old(buffer.State()), at, a, depth)
      decreases depth, 2
    {
      hide DeepCopy.Copy, DeepCopy.CopyFields, ByteBuffer.State;
      ghost var before := buffer.State();
      NoFields(types, remote, buffer.base, before, at, a, depth);
      var i := 0;
      while i < |fields|
        invariant i <= |fields|
        invariant Copied(Good, buffer.State()) ==
                  CopyFields(types, remote, fields[..i], buffer.base, before, at, a, depth)
      {
        OneMoreField(types, remote, fields, i, buffer.base, before, at, a, depth);
        var e := ResolveName(fields[i].typeName);
        if e.Fail? {
          FailedPrefix(types, remote, fields, i + 1, buffer.base, old(buffer.State()), at, a, depth);
          return e.error;
        }
        status := RetrieveInto(remote, e.value.kind, e.value.size, buffer, at + fields[i].offset,
            a + fields[i].offset, depth);
        if status != Good {
          FailedPrefix(types, remote, fields, i + 1, buffer.base, old(buffer.State()), at, a, depth);
          return;
        }
        i := i + 1;
      }
      assert fields[..i] == fields;
      return Good;
    }

    method RetrievePointer(remote: Mem, k: Kind, buffer: ByteBuffer, at: nat, a: nat, depth: nat)
      returns (status: Status)
      requires k.Pointer?
      modifies buffer, buffer.data
      ensures forall n: nat ::
                Copied(status, buffer.State()) == Copy(types, remote, k, n, buffer.base, old(buffer.State()),
                    at, a, depth)
      decreases depth, 0
    {
      hide DeepCopy.Store;
      if !Has(remote, a, POINTER_SIZE) {
        return ReadFailed;
      }
      var p := WordAt(remote, a);
      if p == 0 {
        status := buffer.Write(at, WordBytes(0));
        return;
      }
      var e := ResolveName(k.element);
      if e.Fail? {
        return e.error;
      }
      var target;
      status, target := buffer.Expand(e.value.size);
      if status != Good {
        return;
      }
      if depth == 0 {
        return TooDeep;
      }
      status := RetrieveInto(remote, e.value.kind, e.value.size, buffer, target, p, depth - 1);
      if status == Good {
        status := buffer.Write(at, WordBytes(buffer.base + target));
      }
    }

    method RetrieveArrayPointer(remote: Mem, k: Kind, buffer: ByteBuffer, at: nat, a: nat, depth: nat)
      returns (status: Status)
      requires k.ArrayPointer?
      modifies buffer, buffer.data
      ensures forall n: nat ::
                Copied(status, buffer.State()) == Copy(types, remote, k, n, buffer.base, old(buffer.State()),
                    at, a, depth)
      decreases depth, 0
    {
      hide DeepCopy.Store;
      if !Has(remote, a, ARRAY_POINTER_SIZE) {
        return ReadFailed;
      }
      var count, p := WordAt(remote, a), WordAt(remote, a + WORD_SIZE);
      if p == 0 || count == 0 {
        status := buffer.Write(at, WordBytes(0) + WordBytes(0));
        return;
      }
      var e := ResolveName(k.element);
      if e.Fail? {
        return e.error;
      }
      var n, target := e.value.size * count, 0;
      status, target := buffer.Expand(n);
      if status != Good {
        return;
      }
      if depth == 0 {
        return TooDeep;
      }
      status := RetrieveInto(remote, e.value.kind, n, buffer, target, p, depth - 1);
      if status == Good {
        status := buffer.Write(at, WordBytes(count) + WordBytes(buffer.base + target));
      }
    }

    /** `gh_ts_retrievet` */
    method RetrieveT(remote: Mem, k: Kind, buffer: ByteBuffer, a: nat, depth: nat)
      returns (status: Status, pointer: nat)
      modifies buffer, buffer.data
      ensures Retrieved(status, buffer.State(), pointer) ==
              Retrieve(types, remote, k, buffer.base, old(buffer.State()), a, depth)
    {
      hide DeepCopy.Copy, SizeVia;
      var s := SizeT(k, {});
      if s.Fail? {
        return s.error, 0;
      }
      var at;
      status, at := buffer.Expand(s.value);
      if status != Good {
        return status, 0;
      }
      status := RetrieveInto(remote, k, s.value, buffer, at, a, depth);
      pointer := if status == Good then buffer.base else 0;
    }

    // ---------- derived types ----------

    /** No two types share a name, and every type has one. */
    ghost predicate Valid()
      reads this
    {
      "" !in Names(types) && forall i, j | 0 <= i < j < |types| :: types[i].name != types[j].name
    }

    /** `gh_ts_append` */
    method Append(t: TsType) returns (status: Status)
      requires Valid()
      modifies this
      ensures Valid()
      ensures if t.name in Names(old(types)) then status == DuplicateType
              else if t.name == "" then status == EmptyName
              else status == Good
      ensures types == if status == Good then old(types) + [t] else old(types)
    {
      var found := FindByName(t.name);
      if found.Okay? {
        return DuplicateType;
      }
      if found.error != MissingType {
        return found.error;
      }
      forall i | 0 <= i < |types| ensures types[i].name != t.name {
        assert types[i].name in Names(types);
      }
      types := types + [t];
      return Good;
    }

    /** `ts_makederivatives_fromtypename` */
    method MakeFromName(name: string) returns (status: Status)
      requires Valid()
      modifies this
      ensures Valid() && old(types) <= types
      ensures status == Fate(Names(old(types)), name)
      ensures status == Good ==> name in Names(types)
      ensures forall i | |old(types)| <= i < |types| :: MadeFrom(types[i], [name], Names(old(types)))
      ensures status == Good ==> forall i | |old(types)| <= i < |types| :: Derivable(Names(old(types)), types[i].name)
      decreases |name|
    {
      ghost var names := Names(types);
      var existing := FindByName(name);
      if existing.Okay? {
        return Good;
      }
      if existing.error != MissingType {
        return existing.error;
      }
      var kind := DeriveKind(name);
      if kind.None? {
        return MissingType;
      }
      var t := TsType(name, kind.value);
      status := Append(t);
      ghost var appended := types;
      assert Names(types) == names + {name} by { NamesOfAppended(old(types), t); }
      FateWithLonger(names, name, kind.value.element);
      status := MakeFromName(kind.value.element);
      assert types[|old(types)|] == t;
      forall i | |old(types)| <= i < |types|
        ensures MadeFrom(types[i], [name], names) && (status == Good ==> Derivable(names, types[i].name))
      {
        if i == |old(types)| {
          assert name in [name];
        } else {
          MadeShorter(types[i], kind.value.element, name, names);
          DerivableWithLonger(names, name, types[i].name);
        }
      }
    }

    /** `ts_makederivatives`: makes every type the kind refers to. */
    method MakeOf(k: Kind) returns (status: Status)
      requires Valid()
      modifies this
      ensures Valid() && old(types) <= types
      ensures status == if k.Invalid? then InvalidType else FateOfAll(Names(old(types)), References(k))
      ensures status == Good ==> ReferencesIn(k, Names(types))
      ensures forall i | |old(types)| <= i < |types| :: MadeFrom(types[i], References(k), Names(old(types)))
      ensures status == Good ==> forall i | |old(types)| <= i < |types| :: Derivable(Names(old(types)), types[i].name)
    {
      hide Derivable, Derive, MadeFrom, Names;
      if k.Invalid? {
        return InvalidType;
      }
      ghost var names := Names(types);
      var refs := References(k);
      var i := 0;
      while i < |refs|
        invariant i <= |refs|
        invariant Valid() && old(types) <= types
        invariant forall j | 0 <= j < i :: refs[j] in Names(types) && Derivable(names, refs[j])
        invariant forall j | |old(types)| <= j < |types| ::
                  MadeFrom(types[j], refs, names) && Derivable(names, types[j].name)
      {
        AllDerivable(types, old(types));
        ghost var before := types;
        status := MakeFromName(refs[i]);
        FateClosure(names, Names(before), refs[i]);
        NamesGrow(before, types);
        forall j | |old(types)| <= j < |types|
          ensures MadeFrom(types[j], refs, names) && (status == Good ==> Derivable(names, types[j].name))
        {
          if |before| <= j {
            MadeLater(types[j], refs, i, names, Names(before));
            DerivableClosure(names, Names(before), types[j].name);
          }
        }
        if status != Good {
          FirstFate(names, refs, i);
          return;
        }
        i := i + 1;
      }
      return Good;
    }

    /** `gh_ts_makederivatives`: the list grows while it is iterated. */
    method MakeDerivatives() returns (status: Status)
      requires Valid()
      modifies this
      ensures Valid() && old(types) <= types
      ensures status == Good <==>
              forall t | t in old(types) :: !t.kind.Invalid? && ReferencesDerivable(t.kind, Names(old(types)))
      ensures status == FateOfTypes(Names(old(types)), old(types))
      ensures status == Good ==> Closed(types)
      ensures forall i | |old(types)| <= i < |types| :: Added(old(types), types[i]) && NameTells(types[i])
    {
      ghost var base := types;
      ProgressStart(base);
      var i := 0;
      while i < |types|
        invariant Valid() && Progress(base, types, i)
        decreases Universe(base) - Names(types), |types| - i
      {
        ghost var before := types;
        var k := types[i].kind;
        status := MakeOf(k);
        ProgressStep(base, before, types, i, status == Good);
        if status != Good {
          FailedAt(base, before, i);
          AllTell(base, types);
          return;
        }
        i := i + 1;
      }
      ProgressEnd(base, types);
      NoneFails(Names(base), base);
      AllTell(base, types);
      return Good;
    }
  }

  /** How far `gh_ts_makederivatives` is: the first `i` types have all they refer to,
      and what was added to `base` is derived from names `base` refers to. */
  ghost predicate Progress(base: seq<TsType>, types: seq<TsType>, i: nat) {
    && base <= types && i <= |types|
    && (forall j | 0 <= j < |types| :: KnownReferences(types[j].kind, Universe(base)))
    && (forall j | |base| <= j < |types| :: Added(base, types[j]) && Derivable(Names(base), types[j].name))
    && (forall j | 0 <= j < i :: !types[j].kind.Invalid? && ReferencesIn(types[j].kind, Names(types)))
    && (forall j | 0 <= j < i && j < |base| :: ReferencesDerivable(base[j].kind, Names(base)))
  }

  ghost predicate Added(base: seq<TsType>, t: TsType) {
    t.name in Universe(base) - Names(base) && Derive(t.name) == Some(t.kind)
  }

  /** The first type that something cannot be made for is one that was there. */
  lemma {:induction false} FailedAt(base: seq<TsType>, before: seq<TsType>, i: nat)
    requires Progress(base, before, i) && i < |base| && "" !in Names(before)
    requires before[i].kind.Invalid? || FateOfAll(Names(before), References(before[i].kind)) != Good
    ensures FateOfTypes(Names(base), base) ==
            if before[i].kind.Invalid? then InvalidType else FateOfAll(Names(before), References(before[i].kind))
  {
    hide TypeNames.Derivable, TypeNames.References, KnownReferences, ReferencesIn, Added, Names;
    AllDerivable(before, base);
    FateOfAllClosure(Names(base), Names(before), References(base[i].kind));
    FirstType(Names(base), base, i);
  }

  lemma {:induction false} NoneFails(names: set<string>, types: seq<TsType>)
    requires forall t | t in types :: !t.kind.Invalid? && ReferencesDerivable(t.kind, names)
    ensures FateOfTypes(names, types) == Good
  {
    if types != [] {
      assert types[0] in types && forall t | t in types[1..] :: t in types;
      NoneFails(names, types[1..]);
    }
  }

  lemma {:induction false} AllTell(base: seq<TsType>, types: seq<TsType>)
    requires base <= types && forall j | |base| <= j < |types| :: Added(base, types[j])
    ensures forall j | |base| <= j < |types| :: NameTells(types[j])
  {
    hide TypeNames.Derive, NameTells;
    forall j | |base| <= j < |types| ensures NameTells(types[j]) {
      DerivedTells(types[j]);
    }
  }

  ghost predicate ReferencesDerivable(k: Kind, names: set<string>) {
    forall n | n in References(k) :: Derivable(names, n)
  }

  lemma {:induction false} ProgressStart(base: seq<TsType>)
    ensures Progress(base, base, 0)
  {
  }

  lemma {:induction false} ReferencesDerivableClosure(k: Kind, names: set<string>, more: set<string>)
    requires names <= more && forall n | n in more :: Derivable(names, n)
    ensures ReferencesDerivable(k, more) <==> ReferencesDerivable(k, names)
  {
    forall n | n in References(k) ensures Derivable(more, n) <==> Derivable(names, n) {
      DerivableClosure(names, more, n);
    }
  }

  lemma {:induction false} ReferencesInMore(k: Kind, names: set<string>, more: set<string>)
    requires ReferencesIn(k, names) && names <= more
    ensures ReferencesIn(k, more)
  {
  }

  lemma {:induction false} NameOfType(types: seq<TsType>, t: TsType)
    requires t in types
    ensures t.name in Names(types)
  {
  }

  /** What one call of `ts_makederivatives` does to the progress. */
  lemma {:induction false} ProgressStep(base: seq<TsType>, before: seq<TsType>, after: seq<TsType>, i: nat, good: bool)
    requires Progress(base, before, i) && i < |before| && before <= after && "" !in Names(before)
    requires good <==> !before[i].kind.Invalid? && ReferencesDerivable(before[i].kind, Names(before))
    requires good ==> ReferencesIn(before[i].kind, Names(after))
    requires forall j | |before| <= j < |after| :: MadeFrom(after[j], References(before[i].kind), Names(before))
    requires good ==> forall j | |before| <= j < |after| :: Derivable(Names(before), after[j].name)
    ensures forall j | |base| <= j < |after| :: Added(base, after[j])
    ensures good ==> Progress(base, after, i + 1)
    ensures good ==> after == before || Universe(base) - Names(after) < Universe(base) - Names(before)
    ensures !good ==> i < |base| && !(!base[i].kind.Invalid? && ReferencesDerivable(base[i].kind, Names(base)))
  {
    hide KnownReferences, ReferencesDerivable, ReferencesIn, TypeNames.Derivable, TypeNames.References,
      TypeNames.Universe, TypeNames.Derive, Names;
    AllDerivable(before, base);
    NamesGrow(before, after);
    NamesGrow(base, before);
    forall j | 0 <= j < i ensures ReferencesIn(before[j].kind, Names(after)) {
      ReferencesInMore(before[j].kind, Names(before), Names(after));
    }
    ReferencesDerivableClosure(before[i].kind, Names(base), Names(before));
    forall j | |before| <= j < |after|
      ensures Added(base, after[j]) && KnownReferences(after[j].kind, Universe(base))
      ensures after[j].name in Universe(base) - Names(before)
      ensures good ==> Derivable(Names(base), after[j].name)
    {
      MadeKnown(after[j], before[i].kind, Universe(base), Names(before));
      DerivableClosure(Names(base), Names(before), after[j].name);
    }
    if after != before {
      NameOfType(after, after[|before|]);
    }
    if !good && |base| <= i {
      MadeDerivable(before[i], Names(base));
    }
  }

  lemma {:induction false} ProgressEnd(base: seq<TsType>, types: seq<TsType>)
    requires Progress(base, types, |types|)
    ensures Closed(types)
    ensures forall t | t in base :: !t.kind.Invalid? && ReferencesDerivable(t.kind, Names(base))
  {
  }

  // ---------- facts about names ----------

  /** A type made for one of the references: derived from its own name, which is a
      prefix of the reference and was not there before. */
  ghost predicate MadeFrom(t: TsType, refs: seq<string>, names: set<string>) {
    && (exists n | n in refs :: t.name <= n)
    && t.name !in names && Derive(t.name) == Some(t.kind)
  }

  ghost predicate ReferencesIn(k: Kind, names: set<string>) {
    forall n | n in References(k) :: n in names
  }

  /** Every type name any type refers to is the name of a type. */
  ghost predicate Closed(types: seq<TsType>) {
    forall t | t in types :: ReferencesIn(t.kind, Names(types))
  }

  ghost predicate KnownReferences(k: Kind, universe: set<string>) {
    forall n, p | n in References(k) && p in Prefixes(n) :: p in universe
  }

  lemma {:induction false} NamesOfAppended(types: seq<TsType>, t: TsType)
    ensures Names(types + [t]) == Names(types) + {t.name}
  {
  }

  lemma {:induction false} NamesGrow(types: seq<TsType>, types': seq<TsType>)
    requires types <= types'
    ensures Names(types) <= Names(types')
  {
  }

  lemma {:induction false} MadeShorter(t: TsType, element: string, name: string, names: set<string>)
    requires MadeFrom(t, [element], names + {name}) && element <= name && |element| < |name|
    ensures MadeFrom(t, [name], names) && |t.name| < |name|
  {
    assert t.name <= element;
    assert name in [name];
  }

  lemma {:induction false} MadeLater(t: TsType, refs: seq<string>, i: nat, names: set<string>, more: set<string>)
    requires i < |refs| && MadeFrom(t, [refs[i]], more) && names <= more
    ensures MadeFrom(t, refs, names)
  {
    assert refs[i] in refs;
  }

  lemma {:induction false} AllDerivable(types: seq<TsType>, base: seq<TsType>)
    requires base <= types && "" !in Names(types)
    requires forall j | |base| <= j < |types| :: Derivable(Names(base), types[j].name)
    ensures Names(base) <= Names(types) && forall n | n in Names(types) :: Derivable(Names(base), n)
  {
  }

  lemma {:induction false} MadeKnown(t: TsType, k: Kind, universe: set<string>, names: set<string>)
    requires MadeFrom(t, References(k), names) && KnownReferences(k, universe)
    ensures t.name in universe - names && KnownReferences(t.kind, universe)
  {
    var n :| n in References(k) && t.name <= n;
    assert t.name in Prefixes(n);
    forall m, p | m in References(t.kind) && p in Prefixes(m) ensures p in universe {
      assert m <= t.name <= n;
      assert p in Prefixes(n);
    }
  }

  lemma {:induction false} MadeDerivable(t: TsType, names: set<string>)
    requires t.name !in names && Derive(t.name) == Some(t.kind) && Derivable(names, t.name)
    ensures !t.kind.Invalid? && ReferencesDerivable(t.kind, names)
  {
  }
}
