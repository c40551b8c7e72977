/** Type descriptions, name lookup and sizes (typesystem.c, lines 23-107). */
module TypeTable {

  datatype Status =
    | Good | InvalidType | MissingType | EmptyName | DuplicateType | ArrayTooBig
    | ReadFailed      // the retrieve callback reported an error
    | MaxCapacity     // the byte buffer cannot be expanded
    | TooDeep         // the C recursion would exceed its stack
    | Fault           // a write would leave the byte buffer's memory

  datatype Outcome<T> = Okay(value: T) | Fail(error: Status)

  datatype Field = Field(name: string, typeName: string, offset: nat)
  datatype UnionCase = UnionCase(name: string, typeName: string, tag: int)

  datatype Kind =
    | Invalid
    | Primitive(size: nat)
    | StaticArray(count: nat, element: string)
    | Struct(structSize: nat, fields: seq<Field>)
    | TaggedUnion(unionSize: nat, cases: seq<UnionCase>)
    | Pointer(element: string)
    | ArrayPointer(element: string)

  datatype TsType = TsType(name: string, kind: Kind)

  const POINTER_SIZE: nat := 8
  const ARRAY_POINTER_SIZE: nat := 16  // a count and an address
  const TAG_SIZE: nat := 8

  ghost function Names(types: seq<TsType>): set<string> {
    set t | t in types :: t.name
  }

  /** The first type called `name`. */
  function Find(types: seq<TsType>, name: string): (r: Outcome<TsType>)
    ensures r.Okay? ==> r.value in types && r.value.name == name && name != ""
    ensures r.Fail? ==> name == "" || name !in Names(types)
    ensures r.Fail? ==> r.error == if name == "" then EmptyName else MissingType
  {
    if name == "" then Fail(EmptyName)
    else if types == [] then Fail(MissingType)
    else if types[0].name == name then Okay(types[0])
    else Find(types[1..], name)
  }

  predicate IsRaw(k: Kind) {
    k.Primitive? || k.StaticArray? || k.TaggedUnion?
  }

  /** Size of a kind; `seen` holds the static array elements already entered, so
      that a static array made of itself is an error and not an endless recursion. */
  function SizeVia(types: seq<TsType>, k: Kind, seen: set<string>): (r: Outcome<nat>)
    ensures r.Fail? ==> r.error != Good
    decreases Names(types) - seen
  {
    match k
    case Invalid => Fail(InvalidType)
    case Primitive(size) => Okay(size)
    case Struct(size, _) => Okay(size)
    case TaggedUnion(size, _) => Okay(TAG_SIZE + size)
    case Pointer(_) => Okay(POINTER_SIZE)
    case ArrayPointer(_) => Okay(POINTER_SIZE)
    case StaticArray(count, element) =>
      var t := Find(types, element);
      if t.Fail? then Fail(t.error)
      else if element in seen then Fail(TooDeep)
      else
        var s := SizeVia(types, t.value.kind, seen + {element});
        if s.Fail? then s else Okay(count * s.value)
  }

  function SizeOf(types: seq<TsType>, k: Kind): (r: Outcome<nat>)
    ensures r.Fail? ==> r.error != Good
  {
    SizeVia(types, k, {})
  }

  // ---------- static arrays of static arrays ----------

  /** The types met on the way to what a static array is made of in the end. */
  ghost predicate Chain(types: seq<TsType>, k: Kind, chain: seq<TsType>)
    decreases |chain|
  {
    chain == [] ||
    (k.StaticArray? && Find(types, k.element) == Okay(chain[0]) && Chain(types, chain[0].kind, chain[1..]))
  }

  ghost predicate Apart(chain: seq<TsType>) {
    forall i, j | 0 <= i < j < |chain| :: chain[i].name != chain[j].name
  }

  function LastKind(k: Kind, chain: seq<TsType>): Kind {
    if chain == [] then k else chain[|chain| - 1].kind
  }

  /** All counts on the way, multiplied. */
  ghost function Count(k: Kind, chain: seq<TsType>): nat
    decreases |chain|
  {
    if chain == [] || !k.StaticArray? then 1 else k.count * Count(chain[0].kind, chain[1..])
  }

  /** The size of what is no static array. */
  function PlainSize(k: Kind): Outcome<nat>
    requires !k.StaticArray?
  {
    match k
    case Invalid => Fail(InvalidType)
    case Primitive(size) => Okay(size)
    case Struct(size, _) => Okay(size)
    case TaggedUnion(size, _) => Okay(TAG_SIZE + size)
    case Pointer(_) => Okay(POINTER_SIZE)
    case ArrayPointer(_) => Okay(POINTER_SIZE)
  }

  /** What the size of an element makes the size of all. */
  function Times(count: nat, s: Outcome<nat>): Outcome<nat> {
    if s.Fail? then s else Okay(count * s.value)
  }

  lemma {:induction false} ChainVia(types: seq<TsType>, k: Kind, chain: seq<TsType>, seen: set<string>)
    requires Chain(types, k, chain) && Apart(chain) && forall i | 0 <= i < |chain| :: chain[i].name !in seen
    ensures var last := LastKind(k, chain);
            && (!last.StaticArray? ==> SizeVia(types, k, seen) == Times(Count(k, chain), PlainSize(last)))
            && (last.StaticArray? && Find(types, last.element).Fail? ==>
                  SizeVia(types, k, seen) == Fail(Find(types, last.element).error))
            && (last.StaticArray? && Find(types, last.element).Okay? &&
                (Find(types, last.element).value in chain || last.element in seen) ==>
                  SizeVia(types, k, seen) == Fail(TooDeep))
    decreases |chain|
  {
    if chain != [] {
      var rest := chain[1..];
      assert rest != [] ==> rest[|rest| - 1] == chain[|chain| - 1];
      assert forall i | 0 <= i < |rest| :: rest[i] == chain[i + 1];
      assert LastKind(k, chain) == LastKind(chain[0].kind, rest);
      ChainVia(types, chain[0].kind, rest, seen + {k.element});
      if !LastKind(k, chain).StaticArray? {
        TimesTwice(k.count, Count(chain[0].kind, rest), LastKind(k, chain));
      }
    }
  }

  lemma {:induction false} TimesTwice(m: nat, n: nat, k: Kind)
    requires !k.StaticArray?
    ensures Times(m, Times(n, PlainSize(k))) == Times(m * n, PlainSize(k))
  {
    if PlainSize(k).Okay? {
      var size := PlainSize(k).value;
      assert m * (n * size) == (m * n) * size;
    }
  }

  /** A static array, of static arrays and so on: its size is the product of all counts with the size
      of what is in the innermost one; it has none if the innermost type is missing or invalid, or
      made of itself. */
  lemma {:induction false} SizeOfChain(types: seq<TsType>, k: Kind, chain: seq<TsType>)
    requires Chain(types, k, chain) && Apart(chain)
    ensures var last := LastKind(k, chain);
            && (!last.StaticArray? ==> SizeOf(types, k) == Times(Count(k, chain), PlainSize(last)))
            && (last.StaticArray? && Find(types, last.element).Fail? ==>
                  SizeOf(types, k) == Fail(Find(types, last.element).error))
            && (last.StaticArray? && Find(types, last.element).Okay? && Find(types, last.element).value in chain ==>
                  SizeOf(types, k) == Fail(TooDeep))
  {
    ChainVia(types, k, chain, {});
  }

  /** What `gh_ts_findbynamec` followed by `gh_ts_sizet` find out about a name. */
  datatype Element = Element(kind: Kind, size: nat)

  function Resolve(types: seq<TsType>, name: string): (r: Outcome<Element>)
    ensures r.Fail? ==> r.error != Good
  {
    var t := Find(types, name);
    if t.Fail? then Fail(t.error)
    else
      var s := SizeOf(types, t.value.kind);
      if s.Fail? then Fail(s.error) else Okay(Element(t.value.kind, s.value))
  }
}
