/** What typed memory means, pointers in static arrays and tagged unions included, and
    exactly when a deep copy means the same as what it was copied from. */
module DeepCopyMeaning {
  import opened Basics
  import opened Memory
  import opened TypeTable
  import opened DeepCopy
  import opened DeepCopyProof

  /** What a typed piece of memory means once addresses are forgotten. */
  datatype Meaning =
    | Scalar(bytes: seq<Byte>)
    | Members(fields: seq<Meaning>)             // a struct
    | Nowhere                                   // a null pointer
    | Leads(target: Meaning)                    // a pointer
    | Counted(items: seq<Meaning>)              // an array pointer
    | Fixed(items: seq<Meaning>)                // a static array
    | Tagged(tag: int, content: Meaning)        // a union with a case for its tag
    | Unlisted(tag: int, payload: seq<Byte>)    // a union without one

  /** An `int64_t` as it lies in memory. */
  function SignedWord(w: nat): int {
    if w < WORD_LIMIT / 2 then w else w - WORD_LIMIT
  }

  /** The first case of a union for a tag. */
  function CaseOf(cases: seq<UnionCase>, tag: int): (r: Option<UnionCase>)
    ensures r.Some? ==> r.value in cases && r.value.tag == tag
  {
    if cases == [] then None
    else if cases[0].tag == tag then Some(cases[0])
    else CaseOf(cases[1..], tag)
  }

  ghost function Decode(types: seq<TsType>, m: Mem, k: Kind, a: nat, depth: nat): Option<Meaning>
    decreases depth, 1, 0
  {
    match k
    case Invalid => None
    case Primitive(size) => if !Has(m, a, size) then None else Some(Scalar(Bytes(m, a, size)))
    case Struct(_, fields) =>
      if depth == 0 then None
      else
        var vs := DecodeFields(types, m, fields, a, depth - 1);
        if vs.None? then None else Some(Members(vs.value))
    case Pointer(element) =>
      if !Has(m, a, POINTER_SIZE) then None
      else if WordAt(m, a) == 0 then Some(Nowhere)
      else
        var v := DecodeNamed(types, m, element, WordAt(m, a), depth);
        if v.None? then None else Some(Leads(v.value))
    case ArrayPointer(element) =>
      if !Has(m, a, ARRAY_POINTER_SIZE) then None
      else if WordAt(m, a) == 0 || WordAt(m, a + WORD_SIZE) == 0 then Some(Counted([]))
      else if depth == 0 || Resolve(types, element).Fail? then None
      else
        var vs := DecodeItems(types, m, Resolve(types, element).value, WordAt(m, a + WORD_SIZE),
          WordAt(m, a), depth - 1);
        if vs.None? then None else Some(Counted(vs.value))
    case StaticArray(count, element) =>
      if depth == 0 || Resolve(types, element).Fail? then None
      else
        var vs := DecodeItems(types, m, Resolve(types, element).value, a, count, depth - 1);
        if vs.None? then None else Some(Fixed(vs.value))
    case TaggedUnion(size, cases) =>
      if !Has(m, a, TAG_SIZE + size) then None
      else
        var tag := SignedWord(WordAt(m, a));
        var c := CaseOf(cases, tag);
        if c.None? then Some(Unlisted(tag, Bytes(m, a + TAG_SIZE, size)))
        else
          var v := DecodeNamed(types, m, c.value.typeName, a + TAG_SIZE, depth);
          if v.None? then None else Some(Tagged(tag, v.value))
  }

  ghost function DecodeNamed(types: seq<TsType>, m: Mem, name: string, a: nat, depth: nat): Option<Meaning>
    decreases depth, 0, 0
  {
    if depth == 0 || Resolve(types, name).Fail? then None
    else Decode(types, m, Resolve(types, name).value.kind, a, depth - 1)
  }

  ghost function DecodeFields(types: seq<TsType>, m: Mem, fields: seq<Field>, a: nat,
                              depth: nat): (r: Option<seq<Meaning>>)
    ensures r.Some? ==> |r.value| == |fields|
    decreases depth, 2, |fields|
  {
    if fields == [] then Some([])
    else
      var last := |fields| - 1;
      var front := DecodeFields(types, m, fields[..last], a, depth);
      var e := Resolve(types, fields[last].typeName);
      if front.None? || e.Fail? then None
      else
        var v := Decode(types, m, e.value.kind, a + fields[last].offset, depth);
        if v.None? then None else Some(front.value + [v.value])
  }

  ghost function DecodeItems(types: seq<TsType>, m: Mem, e: Element, a: nat, count: nat,
                             depth: nat): (r: Option<seq<Meaning>>)
    ensures r.Some? ==> |r.value| == count
    decreases depth, 2, count
  {
    if count == 0 then Some([])
    else
      var v := Decode(types, m, e.kind, a, depth);
      var rest := DecodeItems(types, m, e, a + e.size, count - 1, depth);
      if v.None? || rest.None? then None else Some([v.value] + rest.value)
  }

  // ---------- what survives a copy ----------

  /** Takes no bytes, so it is found at every address. */
  ghost predicate Weightless(v: Meaning) {
    match v
    case Scalar(bytes) => bytes == []
    case Members(fields) => forall f | f in fields :: Weightless(f)
    case Fixed(items) => forall i | i in items :: Weightless(i)
    case _ => false
  }

  /** Has no pointer to anything that takes bytes: its own bytes say it all. */
  ghost predicate Flat(v: Meaning) {
    match v
    case Scalar(_) => true
    case Members(fields) => forall f | f in fields :: Flat(f)
    case Nowhere => true
    case Leads(target) => Weightless(target)
    case Counted(items) => forall i | i in items :: Weightless(i)
    case Fixed(items) => forall i | i in items :: Flat(i)
    case Tagged(_, content) => Flat(content)
    case Unlisted(_, _) => true
  }

  /** What memory full of zeros means. */
  ghost predicate AllZero(v: Meaning) {
    match v
    case Scalar(bytes) => bytes == Zeros(|bytes|)
    case Members(fields) => forall f | f in fields :: AllZero(f)
    case Nowhere => true
    case Leads(_) => false
    case Counted(items) => items == []
    case Fixed(items) => forall i | i in items :: AllZero(i)
    case Tagged(tag, content) => tag == 0 && AllZero(content)
    case Unlisted(tag, payload) => tag == 0 && payload == Zeros(|payload|)
  }

  /** Copied as plain bytes, whatever is in it. */
  ghost predicate InOnePiece(v: Meaning) {
    v.Scalar? || v.Fixed? || v.Tagged? || v.Unlisted?
  }

  /** Means the same once copied: static arrays and unions are flat, and array pointers
      have elements copied in one piece, or only zeros behind the first. */
  ghost predicate Faithful(v: Meaning) {
    match v
    case Members(fields) => forall f | f in fields :: Faithful(f)
    case Nowhere => true
    case Leads(target) => Faithful(target)
    case Counted(items) =>
      items == [] ||
      if InOnePiece(items[0]) then forall i | i in items :: Flat(i)
      else Faithful(items[0]) && forall i | i in items[1..] :: AllZero(i)
    case _ => Flat(v)
  }

  // ---------- layouts ----------

  /** The parts of a static array and of a union have room in it. */
  ghost predicate PartsFit(types: seq<TsType>, k: Kind) {
    match k
    case StaticArray(_, element) => Resolve(types, element).Okay? ==> !Resolve(types, element).value.kind.ArrayPointer?
    case TaggedUnion(size, cases) =>
      forall c | c in cases :: Resolve(types, c.typeName).Okay? ==>
        Extent(types, Resolve(types, c.typeName).value.kind) <= size
    case _ => true
  }

  ghost predicate AllPartsFit(types: seq<TsType>) {
    forall t | t in types :: PartsFit(types, t.kind)
  }

  /** Every part of a value of this kind, however deep, has room where it is. */
  ghost predicate Roomy(types: seq<TsType>, k: Kind) {
    Laid(types) && AllPartsFit(types) && KindLaid(types, k) && PartsFit(types, k)
  }

  lemma {:induction false} ResolvedRoomy(types: seq<TsType>, k: Kind, name: string)
    requires Roomy(types, k) && Resolve(types, name).Okay?
    ensures var e := Resolve(types, name).value;
            && Roomy(types, e.kind) && SizeOf(types, e.kind) == Okay(e.size)
            && (!e.kind.ArrayPointer? ==> Extent(types, e.kind) == e.size)
  {
    ResolvedLaid(types, name);
  }

  /** What was entered before does not change a size that is found. */
  lemma {:induction false} SizeViaFewer(types: seq<TsType>, k: Kind, seen: set<string>, fewer: set<string>)
    requires fewer <= seen && SizeVia(types, k, seen).Okay?
    ensures SizeVia(types, k, fewer) == SizeVia(types, k, seen)
    decreases Names(types) - seen
  {
    match k
    case StaticArray(_, element) =>
      SizeViaFewer(types, Find(types, element).value.kind, seen + {element}, fewer + {element});
    case _ =>
  }

  lemma {:induction false} ArraySize(types: seq<TsType>, k: Kind)
    requires k.StaticArray? && SizeOf(types, k).Okay?
    ensures Resolve(types, k.element).Okay?
    ensures SizeOf(types, k) == Okay(Total(Resolve(types, k.element).value.size, k.count))
  {
    SizeViaFewer(types, Find(types, k.element).value.kind, {} + {k.element}, {});
    TotalIsProduct(Resolve(types, k.element).value.size, k.count);
  }

  // ---------- one field, one item at a time ----------

  lemma {:induction false} TotalUnfold(size: nat, count: nat)
    requires count > 0
    ensures Total(size, count) == size + Total(size, count - 1)
  {
  }

  lemma {:induction false} NoItems(types: seq<TsType>, m: Mem, e: Element, a: nat, depth: nat)
    ensures DecodeItems(types, m, e, a, 0, depth) == Some([])
  {
  }

  lemma {:induction false} NoFields(types: seq<TsType>, m: Mem, a: nat, depth: nat)
    ensures DecodeFields(types, m, [], a, depth) == Some([])
  {
  }

  lemma {:induction false} ItemsUnfold(types: seq<TsType>, m: Mem, m': Mem, e: Element, a: nat, a': nat, count: nat,
                                       depth: nat)
    requires count != 0 && DecodeItems(types, m, e, a, count, depth).Some?
    ensures var vs := DecodeItems(types, m, e, a, count, depth).value;
            && Decode(types, m, e.kind, a, depth) == Some(vs[0])
            && DecodeItems(types, m, e, a + e.size, count - 1, depth) == Some(vs[1..])
            && (DecodeItems(types, m', e, a', count, depth) == Some(vs) <==>
                Decode(types, m', e.kind, a', depth) == Some(vs[0])
                    && DecodeItems(types, m', e, a' + e.size, count - 1, depth) == Some(vs[1..]))
  {
    var vs := DecodeItems(types, m, e, a, count, depth).value;
    assert vs == [vs[0]] + vs[1..];
  }

  lemma {:induction false} FieldsUnfold(types: seq<TsType>, m: Mem, m': Mem, fields: seq<Field>, a: nat, a': nat,
                                        depth: nat)
    requires fields != [] && DecodeFields(types, m, fields, a, depth).Some?
    ensures var last := |fields| - 1;
            var e := Resolve(types, fields[last].typeName);
            var vs := DecodeFields(types, m, fields, a, depth).value;
            && e.Okay? && Decode(types, m, e.value.kind, a + fields[last].offset, depth) == Some(vs[last])
            && DecodeFields(types, m, fields[..last], a, depth) == Some(vs[..last])
            && (DecodeFields(types, m', fields, a', depth) == Some(vs) <==>
                Decode(types, m', e.value.kind, a' + fields[last].offset, depth) == Some(vs[last]) &&
                DecodeFields(types, m', fields[..last], a', depth) == Some(vs[..last]))
  {
    var vs := DecodeFields(types, m, fields, a, depth).value;
    assert vs == vs[..|fields| - 1] + [vs[|fields| - 1]];
  }

  // ---------- weightless values ----------

  lemma {:induction false} WeightlessAnywhere(types: seq<TsType>, m: Mem, m': Mem, k: Kind, a: nat, a': nat, depth: nat)
    requires Decode(types, m, k, a, depth).Some? && Weightless(Decode(types, m, k, a, depth).value)
    ensures Decode(types, m', k, a', depth) == Decode(types, m, k, a, depth)
    decreases depth, 1, 0
  {
    match k
    case Primitive(_) =>
    case Struct(_, fields) => WeightlessFields(types, m, m', fields, a, a', depth - 1);
    case StaticArray(count, element) =>
      WeightlessItems(types, m, m', Resolve(types, element).value, a, a', count, depth - 1);
    case _ =>
  }

  lemma {:induction false} WeightlessFields(types: seq<TsType>, m: Mem, m': Mem, fields: seq<Field>, a: nat, a': nat,
                                            depth: nat)
    requires DecodeFields(types, m, fields, a, depth).Some?
    requires forall v | v in DecodeFields(types, m, fields, a, depth).value :: Weightless(v)
    ensures DecodeFields(types, m', fields, a', depth) == DecodeFields(types, m, fields, a, depth)
    decreases depth, 2, |fields|
  {
    hide *;
    if fields == [] {
      NoFields(types, m, a, depth);
      NoFields(types, m', a', depth);
    } else {
      var last := |fields| - 1;
      var vs := DecodeFields(types, m, fields, a, depth).value;
      FieldsUnfold(types, m, m', fields, a, a', depth);
      assert vs[last] in vs && forall v | v in vs[..last] :: v in vs;
      WeightlessFields(types, m, m', fields[..last], a, a', depth);
      WeightlessAnywhere(types, m, m', Resolve(types, fields[last].typeName).value.kind, a + fields[last].offset,
                         a' + fields[last].offset, depth);
    }
  }

  lemma {:induction false} WeightlessItems(types: seq<TsType>, m: Mem, m': Mem, e: Element, a: nat, a': nat, count: nat,
                                           depth: nat)
    requires DecodeItems(types, m, e, a, count, depth).Some?
    requires forall v | v in DecodeItems(types, m, e, a, count, depth).value :: Weightless(v)
    ensures DecodeItems(types, m', e, a', count, depth) == DecodeItems(types, m, e, a, count, depth)
    decreases depth, 2, count
  {
    hide *;
    if count == 0 {
      NoItems(types, m, e, a, depth);
      NoItems(types, m', e, a', depth);
    } else {
      var vs := DecodeItems(types, m, e, a, count, depth).value;
      ItemsUnfold(types, m, m', e, a, a', count, depth);
      assert vs[0] in vs && forall v | v in vs[1..] :: v in vs;
      WeightlessAnywhere(types, m, m', e.kind, a, a', depth);
      WeightlessItems(types, m, m', e, a + e.size, a' + e.size, count - 1, depth);
    }
  }

  ghost predicate NoCommonAddress(m: Mem, m': Mem) {
    m.Keys !! m'.Keys
  }

  /** What is found at one address in two memories without a common byte takes no bytes. */
  lemma {:induction false} StrayIsWeightless(types: seq<TsType>, m: Mem, m': Mem, k: Kind, a: nat, depth: nat)
    requires NoCommonAddress(m, m') && Decode(types, m, k, a, depth).Some? && Decode(types, m', k, a, depth).Some?
    ensures Weightless(Decode(types, m, k, a, depth).value)
    decreases depth, 1, 0
  {
    assert a !in m || a !in m';
    match k
    case Struct(_, fields) => StrayFields(types, m, m', fields, a, depth - 1);
    case StaticArray(count, element) =>
      StrayItems(types, m, m', Resolve(types, element).value, a, count, depth - 1);
    case _ =>
  }

  lemma {:induction false} StrayFields(types: seq<TsType>, m: Mem, m': Mem, fields: seq<Field>, a: nat, depth: nat)
    requires NoCommonAddress(m, m') && DecodeFields(types, m, fields, a, depth).Some?
    requires DecodeFields(types, m', fields, a, depth).Some?
    ensures forall v | v in DecodeFields(types, m, fields, a, depth).value :: Weightless(v)
    decreases depth, 2, |fields|
  {
    if fields != [] {
      var last := |fields| - 1;
      hide Weightless, Decode;
      StrayFields(types, m, m', fields[..last], a, depth);
      StrayIsWeightless(types, m, m', Resolve(types, fields[last].typeName).value.kind, a + fields[last].offset, depth);
    }
  }

  lemma {:induction false} StrayItems(types: seq<TsType>, m: Mem, m': Mem, e: Element, a: nat, count: nat, depth: nat)
    requires NoCommonAddress(m, m') && DecodeItems(types, m, e, a, count, depth).Some?
    requires DecodeItems(types, m', e, a, count, depth).Some?
    ensures forall v | v in DecodeItems(types, m, e, a, count, depth).value :: Weightless(v)
    decreases depth, 2, count
  {
    if count != 0 {
      hide Weightless, Decode;
      StrayIsWeightless(types, m, m', e.kind, a, depth);
      StrayItems(types, m, m', e, a + e.size, count - 1, depth);
    }
  }

  // ---------- values copied as plain bytes ----------

  ghost predicate Same(m: Mem, a: nat, m': Mem, a': nat, n: nat) {
    Has(m, a, n) && Has(m', a', n) && Bytes(m', a', n) == Bytes(m, a, n)
  }

  lemma {:induction false} SameWithin(m: Mem, a: nat, m': Mem, a': nat, n: nat, offset: nat, n': nat)
    requires Same(m, a, m', a', n) && offset + n' <= n
    ensures Same(m, a + offset, m', a' + offset, n')
  {
    assert Bytes(m, a + offset, n') == Bytes(m, a, n)[offset..offset + n'];
    assert Bytes(m', a' + offset, n') == Bytes(m', a', n)[offset..offset + n'];
  }

  /** `found` is what the copy of `v` means, as far as `v` is said to be `kept`. */
  ghost predicate Settles(m: Mem, m': Mem, kept: bool, found: bool) {
    (kept ==> found) && (NoCommonAddress(m, m') && found ==> kept)
  }

  /** The same bytes mean the same exactly when they are flat. */
  lemma {:induction false} SameBytesMean(types: seq<TsType>, m: Mem, m': Mem, k: Kind, a: nat, a': nat, depth: nat)
    requires Roomy(types, k) && SizeOf(types, k).Okay? && Same(m, a, m', a', Extent(types, k))
    requires Decode(types, m, k, a, depth).Some?
    ensures var v := Decode(types, m, k, a, depth);
            Settles(m, m', Flat(v.value), Decode(types, m', k, a', depth) == v)
    decreases depth, 1, 0
  {
    match k
    case Primitive(size) =>
    case Struct(size, fields) => SameFieldsMean(types, m, m', k, fields, a, a', depth - 1);
    case Pointer(element) =>
      if WordAt(m, a) != 0 {
        StrayTarget(types, m, m', element, WordAt(m, a), depth);
      }
    case ArrayPointer(_) => SameSliceMeans(types, m, m', k, a, a', depth);
    case StaticArray(_, _) => SameArrayMeans(types, m, m', k, a, a', depth);
    case TaggedUnion(_, _) => SameUnionMeans(types, m, m', k, a, a', depth);
  }

  lemma {:induction false} SameSliceMeans(types: seq<TsType>, m: Mem, m': Mem, k: Kind, a: nat, a': nat, depth: nat)
    requires k.ArrayPointer? && Same(m, a, m', a', ARRAY_POINTER_SIZE)
    requires Decode(types, m, k, a, depth).Some?
    ensures var v := Decode(types, m, k, a, depth);
            Settles(m, m', Flat(v.value), Decode(types, m', k, a', depth) == v)
  {
    hide ToWord, DecodeItems, Resolve;
    SameWithin(m, a, m', a', ARRAY_POINTER_SIZE, 0, WORD_SIZE);
    SameWithin(m, a, m', a', ARRAY_POINTER_SIZE, WORD_SIZE, WORD_SIZE);
    if WordAt(m, a) != 0 && WordAt(m, a + WORD_SIZE) != 0 {
      StrayArray(types, m, m', Resolve(types, k.element).value, WordAt(m, a + WORD_SIZE), WordAt(m, a), depth - 1);
    }
  }

  lemma {:induction false} SameArrayMeans(types: seq<TsType>, m: Mem, m': Mem, k: Kind, a: nat, a': nat, depth: nat)
    requires k.StaticArray? && Roomy(types, k) && SizeOf(types, k).Okay? && Same(m, a, m', a', Extent(types, k))
    requires Decode(types, m, k, a, depth).Some?
    ensures var v := Decode(types, m, k, a, depth);
            Settles(m, m', Flat(v.value), Decode(types, m', k, a', depth) == v)
    decreases depth, 0, 0
  {
    ResolvedRoomy(types, k, k.element);
    ArraySize(types, k);
    SameItemsMean(types, m, m', Resolve(types, k.element).value, a, a', k.count, depth - 1);
  }

  lemma {:induction false} SameUnionMeans(types: seq<TsType>, m: Mem, m': Mem, k: Kind, a: nat, a': nat, depth: nat)
    requires k.TaggedUnion? && Roomy(types, k) && Same(m, a, m', a', Extent(types, k))
    requires Decode(types, m, k, a, depth).Some?
    ensures var v := Decode(types, m, k, a, depth);
            Settles(m, m', Flat(v.value), Decode(types, m', k, a', depth) == v)
    decreases depth, 0, 0
  {
    var n := TAG_SIZE + k.unionSize;
    assert Extent(types, k) == n;
    SameWithin(m, a, m', a', n, 0, WORD_SIZE);
    SameWithin(m, a, m', a', n, TAG_SIZE, k.unionSize);
    var c := CaseOf(k.cases, SignedWord(WordAt(m, a)));
    if c.Some? {
      UnionUnfold(types, m, k, a, depth, c.value);
      var e := Resolve(types, c.value.typeName).value;
      ResolvedRoomy(types, k, c.value.typeName);
      assert Extent(types, e.kind) <= k.unionSize;
      SameWithin(m, a, m', a', n, TAG_SIZE, Extent(types, e.kind));
      UnionUnfold(types, m', k, a', depth, c.value);
      hide Decode, Extent, Roomy, Same, SizeOf, CaseOf;
      SameBytesMean(types, m, m', e.kind, a + TAG_SIZE, a' + TAG_SIZE, depth - 1);
    }
  }

  lemma {:induction false} UnionUnfold(types: seq<TsType>, m: Mem, k: Kind, a: nat, depth: nat, c: UnionCase)
    requires k.TaggedUnion? && Has(m, a, TAG_SIZE + k.unionSize)
    requires CaseOf(k.cases, SignedWord(WordAt(m, a))) == Some(c)
    ensures var v := DecodeNamed(types, m, c.typeName, a + TAG_SIZE, depth);
            Decode(types, m, k, a, depth) == if v.None? then None else Some(Tagged(SignedWord(WordAt(m, a)), v.value))
  {
  }

  lemma {:induction false} StrayTarget(types: seq<TsType>, m: Mem, m': Mem, name: string, p: nat, depth: nat)
    requires DecodeNamed(types, m, name, p, depth).Some?
    ensures var v := DecodeNamed(types, m, name, p, depth);
            Settles(m, m', Weightless(v.value), DecodeNamed(types, m', name, p, depth) == v)
  {
    var k := Resolve(types, name).value.kind;
    if Weightless(DecodeNamed(types, m, name, p, depth).value) {
      WeightlessAnywhere(types, m, m', k, p, p, depth - 1);
    } else if NoCommonAddress(m, m') && DecodeNamed(types, m', name, p, depth).Some? {
      StrayIsWeightless(types, m, m', k, p, depth - 1);
    }
  }

  lemma {:induction false} StrayArray(types: seq<TsType>, m: Mem, m': Mem, e: Element, p: nat, count: nat, depth: nat)
    requires DecodeItems(types, m, e, p, count, depth).Some?
    ensures var vs := DecodeItems(types, m, e, p, count, depth);
            Settles(m, m', forall v | v in vs.value :: Weightless(v), DecodeItems(types, m', e, p, count, depth) == vs)
  {
    if forall v | v in DecodeItems(types, m, e, p, count, depth).value :: Weightless(v) {
      WeightlessItems(types, m, m', e, p, p, count, depth);
    } else if NoCommonAddress(m, m') && DecodeItems(types, m', e, p, count, depth).Some? {
      StrayItems(types, m, m', e, p, count, depth);
    }
  }

  lemma {:induction false} SameFieldsMean(types: seq<TsType>, m: Mem, m': Mem, k: Kind, fields: seq<Field>, a: nat,
                                          a': nat, depth: nat)
    requires k.Struct? && Roomy(types, k) && FieldsLaid(types, k.structSize, fields) && Same(m, a, m', a', k.structSize)
    requires DecodeFields(types, m, fields, a, depth).Some?
    ensures var vs := DecodeFields(types, m, fields, a, depth);
            Settles(m, m', forall v | v in vs.value :: Flat(v), DecodeFields(types, m', fields, a', depth) == vs)
    decreases depth, 2, |fields|
  {
    hide *;
    if fields == [] {
      NoFields(types, m, a, depth);
      NoFields(types, m', a', depth);
      assert Settles(m, m', true, true) by { Settled(m, m'); }
    } else {
      var last := |fields| - 1;
      var o := fields[last].offset;
      FieldsUnfold(types, m, m', fields, a, a', depth);
      var vs := DecodeFields(types, m, fields, a, depth).value;
      var e := Resolve(types, fields[last].typeName).value;
      ResolvedRoomy(types, k, fields[last].typeName);
      LastFieldRoom(types, k.structSize, fields, e);
      SameWithin(m, a, m', a', k.structSize, o, Extent(types, e.kind));
      SameFieldsMean(types, m, m', k, fields[..last], a, a', depth);
      SameBytesMean(types, m, m', e.kind, a + o, a' + o, depth);
      LastToo(vs);
      BothSettle(m, m', Flat(vs[last]), Decode(types, m', e.kind, a' + o, depth) == Some(vs[last]),
        forall v | v in vs[..last] :: Flat(v), DecodeFields(types, m', fields[..last], a', depth) == Some(vs[..last]));
    }
  }

  lemma {:induction false} LastToo(vs: seq<Meaning>)
    requires vs != []
    ensures var last := |vs| - 1;
            (forall v | v in vs :: Flat(v)) <==> (forall v | v in vs[..last] :: Flat(v)) && Flat(vs[last])
  {
    hide Flat;
    assert vs == vs[..|vs| - 1] + [vs[|vs| - 1]];
  }

  lemma {:induction false} FirstToo(vs: seq<Meaning>)
    requires vs != []
    ensures (forall v | v in vs :: Flat(v)) <==> Flat(vs[0]) && (forall v | v in vs[1..] :: Flat(v))
  {
    hide Flat;
    assert vs == [vs[0]] + vs[1..];
  }

  lemma {:induction false} Settled(m: Mem, m': Mem)
    ensures Settles(m, m', true, true)
  {
  }

  lemma {:induction false} BothSettle(m: Mem, m': Mem, kept: bool, found: bool, kept': bool, found': bool)
    requires Settles(m, m', kept, found) && Settles(m, m', kept', found')
    ensures Settles(m, m', kept && kept', found && found')
  {
  }

  lemma {:induction false} SameItemsMean(types: seq<TsType>, m: Mem, m': Mem, e: Element, a: nat, a': nat, count: nat,
                                         depth: nat)
    requires Roomy(types, e.kind) && SizeOf(types, e.kind) == Okay(e.size) && Extent(types, e.kind) == e.size
    requires Same(m, a, m', a', Total(e.size, count))
    requires DecodeItems(types, m, e, a, count, depth).Some?
    ensures var vs := DecodeItems(types, m, e, a, count, depth);
            Settles(m, m', forall v | v in vs.value :: Flat(v), DecodeItems(types, m', e, a', count, depth) == vs)
    decreases depth, 2, count
  {
    hide *;
    if count == 0 {
      NoItems(types, m, e, a, depth);
      NoItems(types, m', e, a', depth);
      assert Settles(m, m', true, true) by { Settled(m, m'); }
    } else {
      TotalUnfold(e.size, count);
      SameWithin(m, a, m', a', Total(e.size, count), 0, e.size);
      SameWithin(m, a, m', a', Total(e.size, count), e.size, Total(e.size, count - 1));
      ItemsUnfold(types, m, m', e, a, a', count, depth);
      var vs := DecodeItems(types, m, e, a, count, depth).value;
      SameBytesMean(types, m, m', e.kind, a, a', depth);
      SameItemsMean(types, m, m', e, a + e.size, a' + e.size, count - 1, depth);
      FirstToo(vs);
      BothSettle(m, m', Flat(vs[0]), Decode(types, m', e.kind, a', depth) == Some(vs[0]),
        forall v | v in vs[1..] :: Flat(v), DecodeItems(types, m', e, a' + e.size, count - 1, depth) == Some(vs[1..]));
    }
  }

  // ---------- zeros ----------

  lemma {:induction false} LastZeroToo(vs: seq<Meaning>)
    requires vs != []
    ensures var last := |vs| - 1;
            (forall v | v in vs :: AllZero(v)) <==> (forall v | v in vs[..last] :: AllZero(v)) && AllZero(vs[last])
  {
    hide AllZero;
    assert vs == vs[..|vs| - 1] + [vs[|vs| - 1]];
  }

  lemma {:induction false} FirstZeroToo(vs: seq<Meaning>)
    requires vs != []
    ensures (forall v | v in vs :: AllZero(v)) <==> AllZero(vs[0]) && (forall v | v in vs[1..] :: AllZero(v))
  {
    hide AllZero;
    assert vs == [vs[0]] + vs[1..];
  }

  lemma {:induction false} ZeroWordAt(m: Mem, a: nat)
    requires ZeroAt(m, a, WORD_SIZE)
    ensures Has(m, a, WORD_SIZE) && WordAt(m, a) == 0
  {
    ZerosRead(m, a, WORD_SIZE);
    ZeroWord(WORD_SIZE);
  }

  /** Where a value is, zeros mean that value exactly when it is all zero. */
  lemma {:induction false} ZerosMean(types: seq<TsType>, m: Mem, m': Mem, k: Kind, a: nat, a': nat, depth: nat)
    requires Roomy(types, k) && SizeOf(types, k).Okay? && ZeroAt(m', a', Extent(types, k))
    requires Decode(types, m, k, a, depth).Some?
    ensures var v := Decode(types, m, k, a, depth);
            Decode(types, m', k, a', depth) == v <==> AllZero(v.value)
    decreases depth, 1, 0
  {
    hide DecodeFields, DecodeItems, DecodeNamed, ToWord, Resolve;
    match k
    case Primitive(size) => ZerosRead(m', a', size);
    case Struct(size, fields) => ZeroFieldsMean(types, m, m', k, fields, a, a', depth - 1);
    case Pointer(element) => ZeroWordAt(m', a');
    case ArrayPointer(element) => ZeroWordAt(m', a'); ZerosRead(m', a', ARRAY_POINTER_SIZE);
    case StaticArray(count, element) =>
      ResolvedRoomy(types, k, element);
      ArraySize(types, k);
      ZeroItemsMean(types, m, m', Resolve(types, element).value, a, a', count, depth - 1);
    case TaggedUnion(_, _) => ZeroUnionMeans(types, m, m', k, a, a', depth);
  }

  lemma {:induction false} ZeroUnionMeans(types: seq<TsType>, m: Mem, m': Mem, k: Kind, a: nat, a': nat, depth: nat)
    requires k.TaggedUnion? && Roomy(types, k) && ZeroAt(m', a', Extent(types, k))
    requires Decode(types, m, k, a, depth).Some?
    ensures var v := Decode(types, m, k, a, depth);
            Decode(types, m', k, a', depth) == v <==> AllZero(v.value)
    decreases depth, 0, 0
  {
    var n := TAG_SIZE + k.unionSize;
    ZerosRead(m', a', n);
    ZeroWordAt(m', a');
    ZerosWithin(m', a', n, TAG_SIZE, k.unionSize);
    ZerosRead(m', a' + TAG_SIZE, k.unionSize);
    var tag := SignedWord(WordAt(m, a));
    var c := CaseOf(k.cases, tag);
    if c.Some? && tag == 0 {
      var e := Resolve(types, c.value.typeName).value;
      ResolvedRoomy(types, k, c.value.typeName);
      ZerosWithin(m', a', n, TAG_SIZE, Extent(types, e.kind));
      ZerosMean(types, m, m', e.kind, a + TAG_SIZE, a' + TAG_SIZE, depth - 1);
    }
  }

  lemma {:induction false} ZeroFieldsMean(types: seq<TsType>, m: Mem, m': Mem, k: Kind, fields: seq<Field>, a: nat,
                                          a': nat, depth: nat)
    requires k.Struct? && Roomy(types, k) && FieldsLaid(types, k.structSize, fields) && ZeroAt(m', a', k.structSize)
    requires DecodeFields(types, m, fields, a, depth).Some?
    ensures var vs := DecodeFields(types, m, fields, a, depth);
            DecodeFields(types, m', fields, a', depth) == vs <==> forall v | v in vs.value :: AllZero(v)
    decreases depth, 2, |fields|
  {
    hide *;
    if fields == [] {
      NoFields(types, m, a, depth);
      NoFields(types, m', a', depth);
    } else {
      var last := |fields| - 1;
      var o := fields[last].offset;
      FieldsUnfold(types, m, m', fields, a, a', depth);
      var vs := DecodeFields(types, m, fields, a, depth).value;
      var e := Resolve(types, fields[last].typeName).value;
      ResolvedRoomy(types, k, fields[last].typeName);
      LastFieldRoom(types, k.structSize, fields, e);
      ZerosWithin(m', a', k.structSize, o, Extent(types, e.kind));
      ZeroFieldsMean(types, m, m', k, fields[..last], a, a', depth);
      ZerosMean(types, m, m', e.kind, a + o, a' + o, depth);
      LastZeroToo(vs);
    }
  }

  lemma {:induction false} ZeroItemsMean(types: seq<TsType>, m: Mem, m': Mem, e: Element, a: nat, a': nat, count: nat,
                                         depth: nat)
    requires Roomy(types, e.kind) && SizeOf(types, e.kind) == Okay(e.size) && Extent(types, e.kind) == e.size
    requires ZeroAt(m', a', Total(e.size, count))
    requires DecodeItems(types, m, e, a, count, depth).Some?
    ensures var vs := DecodeItems(types, m, e, a, count, depth);
            DecodeItems(types, m', e, a', count, depth) == vs <==> forall v | v in vs.value :: AllZero(v)
    decreases depth, 2, count
  {
    hide *;
    if count == 0 {
      NoItems(types, m, e, a, depth);
      NoItems(types, m', e, a', depth);
    } else {
      TotalUnfold(e.size, count);
      ZerosWithin(m', a', Total(e.size, count), 0, e.size);
      ZerosWithin(m', a', Total(e.size, count), e.size, Total(e.size, count - 1));
      ItemsUnfold(types, m, m', e, a, a', count, depth);
      var vs := DecodeItems(types, m, e, a, count, depth).value;
      ZerosMean(types, m, m', e.kind, a, a', depth);
      ZeroItemsMean(types, m, m', e, a + e.size, a' + e.size, count - 1, depth);
      FirstZeroToo(vs);
    }
  }

  // ---------- what the copy left blank ----------

  lemma {:induction false} RawBytes(types: seq<TsType>, m: Mem, k: Kind, a: nat, depth: nat)
    requires IsRaw(k) && Walk(types, m, k, a, depth).Some?
    ensures SizeOf(types, k).Okay? && Extent(types, k) == SizeOf(types, k).value && Has(m, a, Extent(types, k))
    ensures Walk(types, m, k, a, depth) == Some(Raw(Bytes(m, a, Extent(types, k))))
  {
  }

  lemma {:induction false} BlankMeans(types: seq<TsType>, m: Mem, m': Mem, k: Kind, a: nat, a': nat, depth: nat,
                                      w: Value)
    requires Roomy(types, k) && Walk(types, m, k, a, depth) == Some(w)
    requires Walk(types, m', k, a', depth) == Some(Blank(w))
    requires Decode(types, m, k, a, depth).Some?
    ensures var v := Decode(types, m, k, a, depth);
            Decode(types, m', k, a', depth) == v <==> AllZero(v.value)
    decreases depth, 1, 0
  {
    hide DecodeFields, DecodeItems, DecodeNamed, DeepCopy.WalkFields, DeepCopy.WalkItems, ToWord, Resolve;
    match k
    case Struct(size, fields) => BlankFieldsMean(types, m, m', k, fields, a, a', depth - 1, w.fields);
    case Pointer(_) =>
    case ArrayPointer(_) =>
    case _ =>
      RawBytes(types, m, k, a, depth);
      RawBytes(types, m', k, a', depth);
      BytesAreZero(m', a', Extent(types, k));
      ZerosMean(types, m, m', k, a, a', depth);
  }

  lemma {:induction false} BytesAreZero(m: Mem, a: nat, n: nat)
    requires Has(m, a, n) && Bytes(m, a, n) == seq(n, _ => 0)
    ensures ZeroAt(m, a, n)
  {
    forall x | a <= x < a + n ensures m[x] == 0 {
      assert Bytes(m, a, n)[x - a] == 0;
    }
  }

  lemma {:induction false} BlanksSplit(ws: seq<Value>)
    requires ws != []
    ensures var last := |ws| - 1;
            && Blanks(ws)[..last] == Blanks(ws[..last]) && Blanks(ws)[last] == Blank(ws[last])
            && Blanks(ws)[0] == Blank(ws[0]) && Blanks(ws)[1..] == Blanks(ws[1..])
  {
  }

  lemma {:induction false} BlankFieldsMean(types: seq<TsType>, m: Mem, m': Mem, k: Kind, fields: seq<Field>, a: nat,
                                           a': nat, depth: nat, ws: seq<Value>)
    requires k.Struct? && Roomy(types, k) && FieldsLaid(types, k.structSize, fields)
    requires WalkFields(types, m, fields, a, depth) == Some(ws)
    requires WalkFields(types, m', fields, a', depth) == Some(Blanks(ws))
    requires DecodeFields(types, m, fields, a, depth).Some?
    ensures var vs := DecodeFields(types, m, fields, a, depth);
            DecodeFields(types, m', fields, a', depth) == vs <==> forall v | v in vs.value :: AllZero(v)
    decreases depth, 2, |fields|
  {
    hide *;
    if fields == [] {
      NoFields(types, m, a, depth);
      NoFields(types, m', a', depth);
    } else {
      var last := |fields| - 1;
      var o := fields[last].offset;
      FieldsUnfold(types, m, m', fields, a, a', depth);
      WalkFieldsUnfold(types, m, fields, a, depth);
      WalkFieldsUnfold(types, m', fields, a', depth);
      BlanksSplit(ws);
      var vs := DecodeFields(types, m, fields, a, depth).value;
      var e := Resolve(types, fields[last].typeName).value;
      ResolvedRoomy(types, k, fields[last].typeName);
      LastFieldRoom(types, k.structSize, fields, e);
      BlankFieldsMean(types, m, m', k, fields[..last], a, a', depth, ws[..last]);
      BlankMeans(types, m, m', e.kind, a + o, a' + o, depth, ws[last]);
      LastZeroToo(vs);
    }
  }

  lemma {:induction false} BlankItemsMean(types: seq<TsType>, m: Mem, m': Mem, e: Element, a: nat, a': nat, count: nat,
                                          depth: nat, ws: seq<Value>)
    requires Roomy(types, e.kind)
    requires WalkItems(types, m, e, a, count, depth) == Some(ws)
    requires WalkItems(types, m', e, a', count, depth) == Some(Blanks(ws))
    requires DecodeItems(types, m, e, a, count, depth).Some?
    ensures var vs := DecodeItems(types, m, e, a, count, depth);
            DecodeItems(types, m', e, a', count, depth) == vs <==> forall v | v in vs.value :: AllZero(v)
    decreases depth, 2, count
  {
    hide *;
    if count == 0 {
      NoItems(types, m, e, a, depth);
      NoItems(types, m', e, a', depth);
    } else {
      ItemsUnfold(types, m, m', e, a, a', count, depth);
      WalkItemsUnfold(types, m, e, a, count, depth);
      WalkItemsUnfold(types, m', e, a', count, depth);
      BlanksSplit(ws);
      var vs := DecodeItems(types, m, e, a, count, depth).value;
      BlankMeans(types, m, m', e.kind, a, a', depth, ws[0]);
      BlankItemsMean(types, m, m', e, a + e.size, a' + e.size, count - 1, depth, ws[1..]);
      FirstZeroToo(vs);
    }
  }

  // ---------- the main result ----------

  lemma {:induction false} SameJoin(m: Mem, a: nat, m': Mem, a': nat, n: nat, n': nat)
    requires Same(m, a, m', a', n) && Same(m, a + n, m', a' + n, n')
    ensures Same(m, a, m', a', n + n')
  {
    assert Bytes(m, a, n + n') == Bytes(m, a, n) + Bytes(m, a + n, n');
    assert Bytes(m', a', n + n') == Bytes(m', a', n) + Bytes(m', a' + n, n');
  }

  lemma {:induction false} NothingSame(m: Mem, a: nat, m': Mem, a': nat)
    ensures Same(m, a, m', a', 0) && forall size: nat :: Total(size, 0) == 0
  {
  }

  lemma {:induction false} RawItemsSame(types: seq<TsType>, m: Mem, m': Mem, e: Element, a: nat, a': nat, count: nat,
                                        depth: nat, ws: seq<Value>)
    requires IsRaw(e.kind) && SizeOf(types, e.kind) == Okay(e.size) && Extent(types, e.kind) == e.size
    requires WalkItems(types, m, e, a, count, depth) == Some(ws)
    requires WalkItems(types, m', e, a', count, depth) == Some(ws)
    ensures Same(m, a, m', a', Total(e.size, count))
    decreases count
  {
    hide *;
    if count == 0 {
      NothingSame(m, a, m', a');
    } else {
      TotalUnfold(e.size, count);
      WalkItemsUnfold(types, m, e, a, count, depth);
      WalkItemsUnfold(types, m', e, a', count, depth);
      RawSame(types, m, m', e.kind, a, a', depth, ws[0]);
      RawItemsSame(types, m, m', e, a + e.size, a' + e.size, count - 1, depth, ws[1..]);
      SameJoin(m, a, m', a', e.size, Total(e.size, count - 1));
    }
  }

  lemma {:induction false} RawSame(types: seq<TsType>, m: Mem, m': Mem, k: Kind, a: nat, a': nat, depth: nat, w: Value)
    requires IsRaw(k) && Walk(types, m, k, a, depth) == Some(w) && Walk(types, m', k, a', depth) == Some(w)
    ensures SizeOf(types, k).Okay? && Same(m, a, m', a', Extent(types, k))
  {
    hide Walk;
    RawBytes(types, m, k, a, depth);
    RawBytes(types, m', k, a', depth);
  }

  lemma {:induction false} PieceByKind(types: seq<TsType>, m: Mem, k: Kind, a: nat, depth: nat)
    requires Decode(types, m, k, a, depth).Some?
    ensures InOnePiece(Decode(types, m, k, a, depth).value) <==> IsRaw(k)
  {
  }

  /** Where the copy is found as the image of what was copied, it means the same if that
      was faithful, and only then if no foreign address is one of its own. */
  lemma {:induction false} ImageMeans(types: seq<TsType>, m: Mem, m': Mem, k: Kind, a: nat, a': nat, depth: nat,
                                      w: Value)
    requires Roomy(types, k) && Walk(types, m, k, a, depth) == Some(w)
    requires Walk(types, m', k, a', depth) == Some(Image(w))
    requires Decode(types, m, k, a, depth).Some?
    ensures var v := Decode(types, m, k, a, depth);
            Settles(m, m', Faithful(v.value), Decode(types, m', k, a', depth) == v)
    decreases depth, 1, 0
  {
    hide DecodeFields, DecodeItems, DecodeNamed, DeepCopy.WalkFields, DeepCopy.WalkItems, ToWord, SizeOf;
    match k
    case Struct(size, fields) => ImageFieldsMean(types, m, m', k, fields, a, a', depth - 1, w.fields);
    case Pointer(_) =>
      if WordAt(m, a) != 0 {
        ImageTargetMeans(types, m, m', k, a, a', depth, w);
      }
    case ArrayPointer(_) =>
      if WordAt(m, a) != 0 && WordAt(m, a + WORD_SIZE) != 0 {
        ImageSliceMeans(types, m, m', k, a, a', depth, w);
      }
    case _ =>
      RawSame(types, m, m', k, a, a', depth, w);
      SameBytesMean(types, m, m', k, a, a', depth);
  }

  lemma {:induction false} ImageTargetMeans(types: seq<TsType>, m: Mem, m': Mem, k: Kind, a: nat, a': nat, depth: nat,
                                            w: Value)
    requires k.Pointer? && Roomy(types, k)
    requires Walk(types, m, k, a, depth) == Some(w) && Walk(types, m', k, a', depth) == Some(Image(w))
    requires Decode(types, m, k, a, depth).Some?
    requires Has(m, a, WORD_SIZE) && WordAt(m, a) != 0
    ensures var v := Decode(types, m, k, a, depth);
            Settles(m, m', Faithful(v.value), Decode(types, m', k, a', depth) == v)
    decreases depth, 0, 0
  {
    WalkedTarget(types, m, m', k, a, a', depth, w);
    var p, p' := WordAt(m, a), WordAt(m', a');
    DecodedTarget(types, m, k, a, depth);
    DecodedTarget(types, m', k, a', depth);
    ResolvedRoomy(types, k, k.element);
    hide DeepCopy.Walk, Decode, DeepCopy.Image, Roomy, Settles, Resolve, WordAt;
    ImageMeans(types, m, m', Resolve(types, k.element).value.kind, p, p', depth - 1, w.target);
  }

  lemma {:induction false} WalkedTarget(types: seq<TsType>, m: Mem, m': Mem, k: Kind, a: nat, a': nat, depth: nat,
                                        w: Value)
    requires k.Pointer? && Walk(types, m, k, a, depth) == Some(w) && Walk(types, m', k, a', depth) == Some(Image(w))
    requires Has(m, a, WORD_SIZE) && WordAt(m, a) != 0
    ensures Resolve(types, k.element).Okay? && depth > 0 && w.Ref? && Has(m', a', WORD_SIZE) && WordAt(m', a') != 0
    ensures var e := Resolve(types, k.element).value;
            && Walk(types, m, e.kind, WordAt(m, a), depth - 1) == Some(w.target)
            && Walk(types, m', e.kind, WordAt(m', a'), depth - 1) == Some(Image(w.target))
  {
  }

  lemma {:induction false} DecodedTarget(types: seq<TsType>, m: Mem, k: Kind, a: nat, depth: nat)
    requires k.Pointer? && Has(m, a, WORD_SIZE) && WordAt(m, a) != 0 && depth > 0 && Resolve(types, k.element).Okay?
    ensures var v := Decode(types, m, Resolve(types, k.element).value.kind, WordAt(m, a), depth - 1);
            Decode(types, m, k, a, depth) == if v.None? then None else Some(Leads(v.value))
  {
  }

  lemma {:induction false} ImageFieldsMean(types: seq<TsType>, m: Mem, m': Mem, k: Kind, fields: seq<Field>, a: nat,
                                           a': nat, depth: nat, ws: seq<Value>)
    requires k.Struct? && Roomy(types, k) && FieldsLaid(types, k.structSize, fields)
    requires WalkFields(types, m, fields, a, depth) == Some(ws)
    requires WalkFields(types, m', fields, a', depth) == Some(Images(ws))
    requires DecodeFields(types, m, fields, a, depth).Some?
    ensures var vs := DecodeFields(types, m, fields, a, depth);
            Settles(m, m', forall v | v in vs.value :: Faithful(v), DecodeFields(types, m', fields, a', depth) == vs)
    decreases depth, 2, |fields|
  {
    hide *;
    if fields == [] {
      NoFields(types, m, a, depth);
      NoFields(types, m', a', depth);
      assert Settles(m, m', true, true) by { Settled(m, m'); }
    } else {
      var last := |fields| - 1;
      var o := fields[last].offset;
      FieldsUnfold(types, m, m', fields, a, a', depth);
      WalkFieldsUnfold(types, m, fields, a, depth);
      WalkFieldsUnfold(types, m', fields, a', depth);
      ImagesSplit(ws);
      var vs := DecodeFields(types, m, fields, a, depth).value;
      var e := Resolve(types, fields[last].typeName).value;
      ResolvedRoomy(types, k, fields[last].typeName);
      LastFieldRoom(types, k.structSize, fields, e);
      ImageFieldsMean(types, m, m', k, fields[..last], a, a', depth, ws[..last]);
      ImageMeans(types, m, m', e.kind, a + o, a' + o, depth, ws[last]);
      LastFaithfulToo(vs);
      BothSettle(m, m', Faithful(vs[last]), Decode(types, m', e.kind, a' + o, depth) == Some(vs[last]),
        forall v | v in vs[..last] :: Faithful(v), DecodeFields(types, m', fields[..last], a', depth) ==
          Some(vs[..last]));
    }
  }

  lemma {:induction false} ImagesSplit(ws: seq<Value>)
    requires ws != []
    ensures Images(ws)[..|ws| - 1] == Images(ws[..|ws| - 1]) && Images(ws)[|ws| - 1] == Image(ws[|ws| - 1])
  {
  }

  lemma {:induction false} LastFaithfulToo(vs: seq<Meaning>)
    requires vs != []
    ensures var last := |vs| - 1;
            (forall v | v in vs :: Faithful(v)) <==> (forall v | v in vs[..last] :: Faithful(v)) && Faithful(vs[last])
  {
    hide Faithful;
    assert vs == vs[..|vs| - 1] + [vs[|vs| - 1]];
  }

  lemma {:induction false} ImageSliceMeans(types: seq<TsType>, m: Mem, m': Mem, k: Kind, a: nat, a': nat, depth: nat,
                                           w: Value)
    requires k.ArrayPointer? && Roomy(types, k)
    requires Walk(types, m, k, a, depth) == Some(w) && Walk(types, m', k, a', depth) == Some(Image(w))
    requires Decode(types, m, k, a, depth).Some?
    requires Has(m, a, ARRAY_POINTER_SIZE) && WordAt(m, a) != 0 && WordAt(m, a + WORD_SIZE) != 0
    ensures var v := Decode(types, m, k, a, depth);
            Settles(m, m', Faithful(v.value), Decode(types, m', k, a', depth) == v)
    decreases depth, 0, 0
  {
    hide DeepCopy.Walk, DeepCopy.WalkItems, Decode, DecodeItems, Roomy, DeepCopy.Image, Flat, AllZero, Faithful, Same,
      InOnePiece, Settles, SizeOf, Resolve, Extent;
    SliceUnfold(types, m, m', k, a, a', depth, w);
    var e := Resolve(types, k.element).value;
    var count, p, p' := WordAt(m, a), WordAt(m, a + WORD_SIZE), WordAt(m', a' + WORD_SIZE);
    var vs := DecodeItems(types, m, e, p, count, depth - 1).value;
    ResolvedRoomy(types, k, k.element);
    FirstItem(types, m, e, p, count, depth - 1);
    ItemsUnfold(types, m, m', e, p, p', count, depth - 1);
    PieceByKind(types, m, e.kind, p, depth - 1);
    SliceFaithful(vs);
    if IsRaw(e.kind) {
      RawImage(w);
      RawItemsSame(types, m, m', e, p, p', count, depth - 1, w.items);
      SameItemsMean(types, m, m', e, p, p', count, depth - 1);
    } else {
      OtherImage(w);
      WalkItemsUnfold(types, m, e, p, count, depth - 1);
      WalkItemsUnfold(types, m', e, p', count, depth - 1);
      ImageMeans(types, m, m', e.kind, p, p', depth - 1, w.items[0]);
      BlankItemsMean(types, m, m', e, p + e.size, p' + e.size, count - 1, depth - 1, w.items[1..]);
      OneSettles(m, m', Faithful(vs[0]), Decode(types, m', e.kind, p', depth - 1) == Some(vs[0]),
                 forall v | v in vs[1..] :: AllZero(v));
    }
  }

  lemma {:induction false} OneSettles(m: Mem, m': Mem, kept: bool, found: bool, both: bool)
    requires Settles(m, m', kept, found)
    ensures Settles(m, m', kept && both, found && both)
  {
  }

  lemma {:induction false} SliceFaithful(vs: seq<Meaning>)
    requires vs != []
    ensures Faithful(Counted(vs)) <==>
            if InOnePiece(vs[0]) then forall v | v in vs ::
              Flat(v) else Faithful(vs[0]) && forall v | v in vs[1..] :: AllZero(v)
  {
  }

  lemma {:induction false} RawImage(w: Value)
    requires w.Slice? && w.items != [] && w.items[0].Raw?
    ensures Image(w) == w
  {
  }

  lemma {:induction false} OtherImage(w: Value)
    requires w.Slice? && w.items != [] && !w.items[0].Raw?
    ensures Image(w) == Slice([Image(w.items[0])] + Blanks(w.items[1..]))
  {
  }

  /** One step through a non-empty array pointer and its copy. */
  lemma {:induction false} SliceUnfold(types: seq<TsType>, m: Mem, m': Mem, k: Kind, a: nat, a': nat, depth: nat,
                                       w: Value)
    requires k.ArrayPointer? && Walk(types, m, k, a, depth) == Some(w)
    requires Walk(types, m', k, a', depth) == Some(Image(w))
    requires Decode(types, m, k, a, depth).Some?
    requires Has(m, a, ARRAY_POINTER_SIZE) && WordAt(m, a) != 0 && WordAt(m, a + WORD_SIZE) != 0
    ensures Resolve(types, k.element).Okay? && depth > 0 && Has(m', a', ARRAY_POINTER_SIZE)
    ensures w.Slice? && w.items != [] && Image(w).Slice?
    ensures var e := Resolve(types, k.element).value;
            var count, p, p' := WordAt(m, a), WordAt(m, a + WORD_SIZE), WordAt(m', a' + WORD_SIZE);
            && WalkItems(types, m, e, p, count, depth - 1) == Some(w.items)
            && WalkItems(types, m', e, p', count, depth - 1) == Some(Image(w).items)
            && DecodeItems(types, m, e, p, count, depth - 1).Some?
            && Decode(types, m, k, a, depth) == Some(Counted(DecodeItems(types, m, e, p, count, depth - 1).value))
            && (Decode(types, m', k, a', depth) == Decode(types, m, k, a, depth) <==>
                DecodeItems(types, m', e, p', count, depth - 1) == DecodeItems(types, m, e, p, count, depth - 1))
  {
    var ws := WalkItems(types, m, Resolve(types, k.element).value, WordAt(m, a + WORD_SIZE), WordAt(m, a), depth - 1);
    assert |ws.value| == WordAt(m, a);
  }

  /** A retrieved value means the same if it was faithful; and only then, unless a foreign
      address happens to be one of the buffer's. */
  lemma {:induction false} RetrieveMeansTheSameIff(types: seq<TsType>, remote: Mem, k: Kind, base: nat, buf: Buf,
                                                   a: nat, depth: nat)
    requires Roomy(types, k) && !k.ArrayPointer?
    requires base > 0 && base + |buf.mem| < WORD_LIMIT && Zeroed(buf)
    requires Walk(types, remote, k, a, depth).Some? && Decode(types, remote, k, a, depth).Some?
    requires buf.size + Extent(types, k) + Span(types, k, Walk(types, remote, k, a, depth).value) <= |buf.mem|
    ensures var r := Retrieve(types, remote, k, base, buf, a, depth);
            var v := Decode(types, remote, k, a, depth).value;
            var found := Decode(types, Local(base, r.buf), k, base + buf.size, depth);
            && r.status == Good
            && (Faithful(v) ==> found == Some(v))
            && (NoCommonAddress(remote, Local(base, r.buf)) ==> (found == Some(v) <==> Faithful(v)))
  {
    hide *;
    RoomyIsLaid(types, k);
    RetrieveCopies(types, remote, k, base, buf, a, depth);
    var local := Local(base, Retrieve(types, remote, k, base, buf, a, depth).buf);
    var v := Decode(types, remote, k, a, depth);
    ImageMeans(types, remote, local, k, a, base + buf.size, depth, Walk(types, remote, k, a, depth).value);
    SettlesMeans(remote, local, Faithful(v.value), Decode(types, local, k, base + buf.size, depth) == v);
  }

  lemma {:induction false} RoomyIsLaid(types: seq<TsType>, k: Kind)
    requires Roomy(types, k)
    ensures Laid(types) && KindLaid(types, k)
  {
  }

  lemma {:induction false} SettlesMeans(m: Mem, m': Mem, kept: bool, found: bool)
    requires Settles(m, m', kept, found)
    ensures (kept ==> found) && (NoCommonAddress(m, m') ==> (found <==> kept))
  {
  }

  // ---------- a pointer in a static array ----------

  const INTS: seq<TsType> := [TsType("int", Primitive(4)), TsType("int*", Pointer("int"))]
  const ONE_POINTER: Kind := StaticArray(1, "int*")

  lemma {:induction false} IntsResolve()
    ensures Resolve(INTS, "int") == Okay(Element(Primitive(4), 4))
    ensures Resolve(INTS, "int*") == Okay(Element(Pointer("int"), 8))
    ensures SizeOf(INTS, ONE_POINTER) == Okay(8) && Roomy(INTS, ONE_POINTER)
  {
    assert Find(INTS, "int") == Okay(INTS[0]);
    assert INTS[1..] == [INTS[1]];
    assert Find(INTS[1..], "int*") == Okay(INTS[1]);
    assert Find(INTS, "int*") == Okay(INTS[1]);
    assert AllLaid(INTS, INTS[1..]);
  }

  lemma {:induction false} OneItem(types: seq<TsType>, m: Mem, e: Element, a: nat, count: nat, depth: nat, v: Meaning)
    requires count == 1 && Decode(types, m, e.kind, a, depth) == Some(v)
    ensures DecodeItems(types, m, e, a, count, depth) == Some([v])
  {
    hide Decode;
    assert DecodeItems(types, m, e, a + e.size, count - 1, depth) == Some([]);
    assert [v] + [] == [v];
  }

  lemma {:induction false} OnePointerMeans(m: Mem, a: nat)
    requires Has(m, a, 8) && WordAt(m, a) != 0 && Has(m, WordAt(m, a), 4)
    ensures Decode(INTS, m, ONE_POINTER, a, 2) == Some(Fixed([Leads(Scalar(Bytes(m, WordAt(m, a), 4)))]))
  {
    IntsResolve();
    var e, v := Resolve(INTS, "int*").value, Leads(Scalar(Bytes(m, WordAt(m, a), 4)));
    assert Decode(INTS, m, e.kind, a, 1) == Some(v);
    OneItem(INTS, m, e, a, 1, 1, v);
  }

  lemma {:induction false} OnePointerIsBytes(m: Mem, a: nat)
    requires Has(m, a, 8)
    ensures Walk(INTS, m, ONE_POINTER, a, 2) == Some(Raw(Bytes(m, a, 8)))
    ensures Image(Raw(Bytes(m, a, 8))) == Raw(Bytes(m, a, 8)) && Span(INTS, ONE_POINTER, Raw(Bytes(m, a, 8))) == 0
    ensures Extent(INTS, ONE_POINTER) == 8
  {
    IntsResolve();
  }

  lemma {:induction false} OneForeign(v: Meaning)
    requires v.Scalar? && v.bytes != []
    ensures !Faithful(Fixed([Leads(v)]))
  {
    assert Leads(v) in [Leads(v)] && !Flat(Leads(v));
  }

  /** The address of an `int` in a static array comes over as it is: in the copy, the
      pointer still leads where it led. */
  lemma {:induction false} StaticPointerStaysForeign(remote: Mem, base: nat, buf: Buf, a: nat)
    requires base > 0 && base + |buf.mem| < WORD_LIMIT && Zeroed(buf) && buf.size + 8 <= |buf.mem|
    requires Has(remote, a, 8) && WordAt(remote, a) != 0 && Has(remote, WordAt(remote, a), 4)
    ensures var r := Retrieve(INTS, remote, ONE_POINTER, base, buf, a, 2);
            var v := Fixed([Leads(Scalar(Bytes(remote, WordAt(remote, a), 4)))]);
            && r.status == Good && Decode(INTS, remote, ONE_POINTER, a, 2) == Some(v) && !Faithful(v)
            && Has(Local(base, r.buf), base + buf.size, 8)
            && WordAt(Local(base, r.buf), base + buf.size) == WordAt(remote, a)
            && (NoCommonAddress(remote, Local(base, r.buf)) ==>
               Decode(INTS, Local(base, r.buf), ONE_POINTER, base + buf.size, 2) != Some(v))
  {
    hide Decode, DecodeItems, DeepCopy.Walk, DeepCopy.Retrieve, DeepCopy.Copy, DeepCopy.Image, DeepCopy.Span, Window,
      Range, Roomy, Faithful, ToWord;
    IntsResolve();
    OnePointerMeans(remote, a);
    OneForeign(Scalar(Bytes(remote, WordAt(remote, a), 4)));
    OnePointerIsBytes(remote, a);
    RetrieveMeansTheSameIff(INTS, remote, ONE_POINTER, base, buf, a, 2);
    RoomyIsLaid(INTS, ONE_POINTER);
    RetrieveCopies(INTS, remote, ONE_POINTER, base, buf, a, 2);
    var local := Local(base, Retrieve(INTS, remote, ONE_POINTER, base, buf, a, 2).buf);
    RawIsThere(local, base + buf.size, Bytes(remote, a, 8));
    assert WordAt(remote, a) == ToWord(Bytes(remote, a, 8)) by { WordIs(remote, a); }
    assert WordAt(local, base + buf.size) == ToWord(Bytes(local, base + buf.size, 8)) by { WordIs(local,
      base + buf.size); }
  }

  lemma {:induction false} WordIs(m: Mem, a: nat)
    requires Has(m, a, 8)
    ensures WordAt(m, a) == ToWord(Bytes(m, a, 8))
  {
  }

  lemma {:induction false} RawIsThere(m: Mem, a: nat, bytes: seq<Byte>)
    requires Walk(INTS, m, ONE_POINTER, a, 2) == Some(Raw(bytes))
    ensures Has(m, a, 8) && Bytes(m, a, 8) == bytes
  {
    IntsResolve();
  }

  /** Why the buffer's addresses must not be foreign ones: here the pointer that stayed
      foreign leads to the zeros behind the copy, which is what it led to. */
  lemma {:induction false} SharedAddressHides(remote: Mem, base: nat, buf: Buf, a: nat)
    requires base > 0 && base + |buf.mem| < WORD_LIMIT && Zeroed(buf) && buf.size == 0 && |buf.mem| >= 12
    requires Has(remote, a, 8) && WordAt(remote, a) == base + 8 && ZeroAt(remote, base + 8, 4)
    ensures var r := Retrieve(INTS, remote, ONE_POINTER, base, buf, a, 2);
            var v := Fixed([Leads(Scalar(Zeros(4)))]);
            && Decode(INTS, remote, ONE_POINTER, a, 2) == Some(v) && !Faithful(v)
            && Decode(INTS, Local(base, r.buf), ONE_POINTER, base, 2) == Some(v)
  {
    hide Decode, DecodeItems, DeepCopy.Walk, DeepCopy.Retrieve, DeepCopy.Copy, DeepCopy.Image, DeepCopy.Span, Window,
      Range, Roomy, Faithful, ToWord;
    HasZeros(remote, base + 8, 4);
    StaticPointerStaysForeign(remote, base, buf, a);
    OnePointerMeans(remote, a);
    var local := Local(base, Retrieve(INTS, remote, ONE_POINTER, base, buf, a, 2).buf);
    assert ZeroAt(local, base + 8, 4) by { RestStaysZero(remote, base, buf, a); }
    HasZeros(local, base + 8, 4);
    OnePointerMeans(local, base);
  }

  lemma {:induction false} HasZeros(m: Mem, a: nat, n: nat)
    requires ZeroAt(m, a, n)
    ensures Has(m, a, n) && Bytes(m, a, n) == Zeros(n)
  {
  }

  lemma {:induction false} RestStaysZero(remote: Mem, base: nat, buf: Buf, a: nat)
    requires Zeroed(buf) && buf.size == 0 && |buf.mem| >= 12 && Has(remote, a, 8)
    ensures ZeroAt(Local(base, Retrieve(INTS, remote, ONE_POINTER, base, buf, a, 2).buf), base + 8, 4)
  {
    IntsResolve();
    UnfoldRaw(INTS, remote, ONE_POINTER, 8, base, buf.(size := 8), 0, a, 2);
    hide Copy;
  }
}
