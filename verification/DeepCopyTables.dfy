/** Type tables whose values all mean the same once copied (src/ghost/typesystem.c, lines 113-252). */
module DeepCopyTables {
  import opened Basics
  import opened Memory
  import opened TypeTable
  import opened DeepCopy
  import opened DeepCopyProof
  import opened DeepCopyMeaning

  /** The names of all parts are among `plain`, and no part is a pointer. */
  predicate PlainKind(plain: set<string>, k: Kind) {
    match k
    case Primitive(_) => true
    case StaticArray(_, element) => element in plain
    case Struct(_, fields) => forall f | f in fields :: f.typeName in plain
    case TaggedUnion(_, cases) => forall c | c in cases :: c.typeName in plain
    case _ => false
  }

  /** What is copied in one piece has no pointer in it, and the elements of array pointers are
      copied in one piece. */
  predicate SafeKind(types: seq<TsType>, plain: set<string>, k: Kind) {
    match k
    case StaticArray(_, element) => element in plain
    case TaggedUnion(_, cases) => forall c | c in cases :: c.typeName in plain
    case ArrayPointer(element) => element in plain && (Resolve(types, element).Okay? ==>
      IsRaw(Resolve(types, element).value.kind))
    case _ => true
  }

  /** The table keeps pointers out of static arrays, unions and array elements; `plain` names
      types without pointers. */
  predicate SafeTable(types: seq<TsType>, plain: set<string>) {
    forall t | t in types :: (t.name in plain ==> PlainKind(plain, t.kind)) && SafeKind(types, plain, t.kind)
  }

  lemma {:induction false} ResolvedIsSafe(types: seq<TsType>, plain: set<string>, name: string)
    requires SafeTable(types, plain) && Resolve(types, name).Okay?
    ensures var k := Resolve(types, name).value.kind;
            SafeKind(types, plain, k) && (name in plain ==> PlainKind(plain, k))
  {
    assert Find(types, name).value in types;
  }

  lemma {:induction false} PlainIsFlat(types: seq<TsType>, plain: set<string>, m: Mem, k: Kind, a: nat, depth: nat)
    requires SafeTable(types, plain) && PlainKind(plain, k) && Decode(types, m, k, a, depth).Some?
    ensures Flat(Decode(types, m, k, a, depth).value)
    decreases depth, 1, 0
  {
    match k
    case Primitive(_) =>
    case StaticArray(count, element) =>
      ResolvedIsSafe(types, plain, element);
      PlainItemsAreFlat(types, plain, m, Resolve(types, element).value, a, count, depth - 1);
    case Struct(_, fields) => PlainFieldsAreFlat(types, plain, m, fields, a, depth - 1);
    case TaggedUnion(_, cases) =>
      var c := CaseOf(cases, SignedWord(WordAt(m, a)));
      if c.Some? {
        ResolvedIsSafe(types, plain, c.value.typeName);
        PlainIsFlat(types, plain, m, Resolve(types, c.value.typeName).value.kind, a + TAG_SIZE, depth - 1);
      }
  }

  lemma {:induction false} PlainItemsAreFlat(types: seq<TsType>, plain: set<string>, m: Mem, e: Element, a: nat,
                                             count: nat, depth: nat)
    requires SafeTable(types, plain) && PlainKind(plain, e.kind) && DecodeItems(types, m, e, a, count, depth).Some?
    ensures forall v | v in DecodeItems(types, m, e, a, count, depth).value :: Flat(v)
    decreases depth, 2, count
  {
    if count != 0 {
      PlainIsFlat(types, plain, m, e.kind, a, depth);
      PlainItemsAreFlat(types, plain, m, e, a + e.size, count - 1, depth);
    }
  }

  lemma {:induction false} PlainFieldsAreFlat(types: seq<TsType>, plain: set<string>, m: Mem, fields: seq<Field>,
                                              a: nat, depth: nat)
    requires SafeTable(types, plain) && (forall f | f in fields :: f.typeName in plain)
    requires DecodeFields(types, m, fields, a, depth).Some?
    ensures forall v | v in DecodeFields(types, m, fields, a, depth).value :: Flat(v)
    decreases depth, 2, |fields|
  {
    if fields != [] {
      var last := |fields| - 1;
      assert fields[last] in fields && forall f | f in fields[..last] :: f in fields;
      ResolvedIsSafe(types, plain, fields[last].typeName);
      PlainFieldsAreFlat(types, plain, m, fields[..last], a, depth);
      PlainIsFlat(types, plain, m, Resolve(types, fields[last].typeName).value.kind, a + fields[last].offset, depth);
    }
  }

  /** Every value of such a table means the same once copied. */
  lemma {:induction false} SafeIsFaithful(types: seq<TsType>, plain: set<string>, m: Mem, k: Kind, a: nat, depth: nat)
    requires SafeTable(types, plain) && SafeKind(types, plain, k) && Decode(types, m, k, a, depth).Some?
    ensures Faithful(Decode(types, m, k, a, depth).value)
    decreases depth, 1, 0
  {
    match k
    case Struct(_, fields) => SafeFieldsAreFaithful(types, plain, m, fields, a, depth - 1);
    case Pointer(element) =>
      if WordAt(m, a) != 0 {
        ResolvedIsSafe(types, plain, element);
        SafeIsFaithful(types, plain, m, Resolve(types, element).value.kind, WordAt(m, a), depth - 1);
      }
    case ArrayPointer(element) =>
      if WordAt(m, a) != 0 && WordAt(m, a + WORD_SIZE) != 0 {
        ResolvedIsSafe(types, plain, element);
        RawItemsAreWhole(types, plain, m, Resolve(types, element).value, WordAt(m, a + WORD_SIZE), WordAt(m, a),
                         depth - 1);
      }
    case StaticArray(_, _) => PlainIsFlat(types, plain, m, k, a, depth);
    case TaggedUnion(_, _) => PlainIsFlat(types, plain, m, k, a, depth);
    case _ =>
  }

  lemma {:induction false} RawItemsAreWhole(types: seq<TsType>, plain: set<string>, m: Mem, e: Element, a: nat,
                                            count: nat, depth: nat)
    requires SafeTable(types, plain) && PlainKind(plain, e.kind) && IsRaw(e.kind) && count != 0
    requires DecodeItems(types, m, e, a, count, depth).Some?
    ensures var vs := DecodeItems(types, m, e, a, count, depth).value;
            InOnePiece(vs[0]) && forall v | v in vs :: Flat(v)
  {
    PlainItemsAreFlat(types, plain, m, e, a, count, depth);
  }

  lemma {:induction false} SafeFieldsAreFaithful(types: seq<TsType>, plain: set<string>, m: Mem, fields: seq<Field>,
                                                 a: nat, depth: nat)
    requires SafeTable(types, plain) && DecodeFields(types, m, fields, a, depth).Some?
    ensures forall v | v in DecodeFields(types, m, fields, a, depth).value :: Faithful(v)
    decreases depth, 2, |fields|
  {
    if fields != [] {
      var last := |fields| - 1;
      ResolvedIsSafe(types, plain, fields[last].typeName);
      SafeFieldsAreFaithful(types, plain, m, fields[..last], a, depth);
      SafeIsFaithful(types, plain, m, Resolve(types, fields[last].typeName).value.kind, a + fields[last].offset, depth);
    }
  }

  /** What a caller can check before: with such a table, whatever can be walked and decoded, and
      fits, is retrieved with its meaning. */
  lemma {:induction false} SafeTablesKeepMeaning(types: seq<TsType>, plain: set<string>, remote: Mem, k: Kind,
                                                 base: nat, buf: Buf, a: nat, depth: nat)
    requires SafeTable(types, plain) && SafeKind(types, plain, k) && Roomy(types, k) && !k.ArrayPointer?
    requires base > 0 && base + |buf.mem| < WORD_LIMIT && Zeroed(buf)
    requires Walk(types, remote, k, a, depth).Some? && Decode(types, remote, k, a, depth).Some?
    requires buf.size + Extent(types, k) + Span(types, k, Walk(types, remote, k, a, depth).value) <= |buf.mem|
    ensures var r := Retrieve(types, remote, k, base, buf, a, depth);
            r.status == Good && Decode(types, Local(base, r.buf), k, base + buf.size, depth) ==
                Decode(types, remote, k, a, depth)
  {
    hide *;
    RetrieveMeansTheSameIff(types, remote, k, base, buf, a, depth);
    SafeIsFaithful(types, plain, remote, k, a, depth);
  }
}
