/** What the deep copy makes of what it walks over. */
module DeepCopyProof {
  import opened Basics
  import opened Memory
  import opened TypeTable
  import opened DeepCopy

  // ---------- a walk looks only at the bytes it needs ----------

  lemma {:induction false} WalkMono(types: seq<TsType>, m: Mem, m': Mem, k: Kind, a: nat, depth: nat)
    requires SubMem(m, m')
    requires Walk(types, m, k, a, depth).Some?
    ensures Walk(types, m', k, a, depth) == Walk(types, m, k, a, depth)
    decreases depth, 1, 0
  {
    match k
    case Struct(_, fields) => WalkFieldsMono(types, m, m', fields, a, depth - 1);
    case Pointer(element) =>
      SubMemBytes(m, m', a, POINTER_SIZE);
      if WordAt(m, a) != 0 {
        WalkMono(types, m, m', Resolve(types, element).value.kind, WordAt(m, a), depth - 1);
      }
    case ArrayPointer(element) =>
      SubMemBytes(m, m', a, WORD_SIZE);
      SubMemBytes(m, m', a + WORD_SIZE, WORD_SIZE);
      SubMemBytes(m, m', a, ARRAY_POINTER_SIZE);
      if WordAt(m, a) != 0 && WordAt(m, a + WORD_SIZE) != 0 {
        WalkItemsMono(types, m, m', Resolve(types, element).value, WordAt(m, a + WORD_SIZE), WordAt(m, a), depth - 1);
      }
    case Invalid =>
    case _ => SubMemBytes(m, m', a, SizeOf(types, k).value);
  }

  lemma {:induction false} WalkFieldsMono(types: seq<TsType>, m: Mem, m': Mem, fields: seq<Field>, a: nat, depth: nat)
    requires SubMem(m, m')
    requires WalkFields(types, m, fields, a, depth).Some?
    ensures WalkFields(types, m', fields, a, depth) == WalkFields(types, m, fields, a, depth)
    decreases depth, 2, |fields|
  {
    if fields != [] {
      var last := |fields| - 1;
      WalkFieldsMono(types, m, m', fields[..last], a, depth);
      WalkMono(types, m, m', Resolve(types, fields[last].typeName).value.kind, a + fields[last].offset, depth);
    }
  }

  lemma {:induction false} WalkItemsMono(types: seq<TsType>, m: Mem, m': Mem, e: Element, a: nat, count: nat,
                                         depth: nat)
    requires SubMem(m, m')
    requires WalkItems(types, m, e, a, count, depth).Some?
    ensures WalkItems(types, m', e, a, count, depth) == WalkItems(types, m, e, a, count, depth)
    decreases depth, 2, count
  {
    if count != 0 {
      WalkMono(types, m, m', e.kind, a, depth);
      WalkItemsMono(types, m, m', e, a + e.size, count - 1, depth);
    }
  }

  // ---------- parts of the buffer seen as memory ----------

  /** The addresses from `lo` up to, but not including, `hi`. */
  ghost function Range(lo: nat, hi: nat): (r: set<nat>)
    ensures forall x: nat :: x in r <==> lo <= x < hi
  {
    if lo >= hi then {} else Range(lo, hi - 1) + {hi - 1}
  }

  /** The buffer bytes at the given addresses, as memory. */
  ghost function Window(base: nat, mem: seq<Byte>, addresses: set<nat>): Mem {
    map x | x in addresses && base <= x < base + |mem| :: mem[x - base]
  }

  lemma {:induction false} WindowAt(base: nat, mem: seq<Byte>, s: set<nat>, x: nat)
    requires x in s && base <= x < base + |mem|
    ensures x in Window(base, mem, s) && Window(base, mem, s)[x] == mem[x - base]
  {
  }

  lemma {:induction false} WindowMono(base: nat, mem: seq<Byte>, mem': seq<Byte>, s: set<nat>, s': set<nat>)
    requires s <= s' && |mem| == |mem'|
    requires forall i | 0 <= i < |mem| && base + i in s :: mem'[i] == mem[i]
    ensures SubMem(Window(base, mem, s), Window(base, mem', s'))
  {
  }

  lemma {:induction false} WindowBytes(base: nat, mem: seq<Byte>, s: set<nat>, at: nat, n: nat)
    requires Range(base + at, base + at + n) <= s && at + n <= |mem|
    ensures Has(Window(base, mem, s), base + at, n)
    ensures Bytes(Window(base, mem, s), base + at, n) == mem[at..at + n]
  {
  }

  // ---------- layouts that leave room for every write ----------

  /** Bytes a copy writes at its slot: an array pointer is stored as a count and
      an address, twice the size reported for it. */
  ghost function Extent(types: seq<TsType>, k: Kind): nat {
    if k.ArrayPointer? then ARRAY_POINTER_SIZE
    else if SizeOf(types, k).Okay? then SizeOf(types, k).value else 0
  }

  ghost function FieldExtent(types: seq<TsType>, f: Field): nat {
    var e := Resolve(types, f.typeName);
    if e.Fail? then 0 else Extent(types, e.value.kind)
  }

  /** The `n` bytes at `o` share nothing with any of the fields. */
  ghost predicate Apart(types: seq<TsType>, fields: seq<Field>, o: nat, n: nat) {
    forall f | f in fields :: o + n <= f.offset || f.offset + FieldExtent(types, f) <= o
  }

  /** Every field lies within the struct, apart from the others. */
  ghost predicate FieldsLaid(types: seq<TsType>, size: nat, fields: seq<Field>)
    decreases |fields|
  {
    fields == [] ||
    (var last := |fields| - 1;
     var n := FieldExtent(types, fields[last]);
     && FieldsLaid(types, size, fields[..last])
     && fields[last].offset + n <= size
     && Apart(types, fields[..last], fields[last].offset, n))
  }

  ghost predicate KindLaid(types: seq<TsType>, k: Kind) {
    match k
    case Struct(size, fields) => FieldsLaid(types, size, fields)
    case Pointer(element) => Resolve(types, element).Okay? ==> !Resolve(types, element).value.kind.ArrayPointer?
    case ArrayPointer(element) => Resolve(types, element).Okay? ==> !Resolve(types, element).value.kind.ArrayPointer?
    case _ => true
  }

  /** Every struct leaves room for each of its fields, and no array pointer stands
      where only the eight bytes `gh_ts_sizet` reports for it are set aside. */
  ghost predicate Laid(types: seq<TsType>) {
    AllLaid(types, types)
  }

  ghost predicate AllLaid(types: seq<TsType>, some: seq<TsType>) {
    some == [] || (KindLaid(types, some[0].kind) && AllLaid(types, some[1..]))
  }

  lemma {:induction false} AllLaidAt(types: seq<TsType>, some: seq<TsType>, t: TsType)
    requires AllLaid(types, some) && t in some
    ensures KindLaid(types, t.kind)
  {
    if t != some[0] {
      AllLaidAt(types, some[1..], t);
    }
  }

  lemma {:induction false} ResolvedLaid(types: seq<TsType>, name: string)
    requires Laid(types) && Resolve(types, name).Okay?
    ensures KindLaid(types, Resolve(types, name).value.kind)
    ensures SizeOf(types, Resolve(types, name).value.kind) == Okay(Resolve(types, name).value.size)
  {
    AllLaidAt(types, types, Find(types, name).value);
  }

  // ---------- the statement ----------

  ghost predicate Zeroed(buf: Buf) {
    buf.size <= |buf.mem| && forall i | buf.size <= i < |buf.mem| :: buf.mem[i] == 0
  }

  /** Only the `n` bytes at `at`, and bytes that were not in use, changed. */
  ghost predicate Framed(buf: Buf, buf': Buf, at: nat, n: nat) {
    && |buf'.mem| == |buf.mem|
    && forall i | 0 <= i < buf.size && i < |buf.mem| && !(at <= i < at + n) :: buf'.mem[i] == buf.mem[i]
  }

  /** The addresses of the slot and of what the copy added to the buffer. */
  ghost function Footprint(base: nat, buf: Buf, buf': Buf, at: nat, n: nat): set<nat> {
    Range(base + at, base + at + n) + Range(base + buf.size, base + buf'.size)
  }

  ghost predicate Preserved(types: seq<TsType>, k: Kind, base: nat, buf: Buf, buf': Buf, at: nat, depth: nat,
                            v: Value) {
    && Zeroed(buf')
    && buf'.size == buf.size + Span(types, k, v)
    && Framed(buf, buf', at, Extent(types, k))
    && Walk(types, Window(base, buf'.mem, Footprint(base, buf, buf', at, Extent(types, k))), k, base + at, depth) ==
       Some(Image(v))
  }

  /** The buffer has a slot of `n` bytes at `at`, and none of its addresses is null. */
  ghost predicate Ready(base: nat, buf: Buf, at: nat, n: nat) {
    base > 0 && base + |buf.mem| < WORD_LIMIT && Zeroed(buf) && at + n <= buf.size
  }

  lemma {:induction false} CopyRaw(types: seq<TsType>, remote: Mem, k: Kind, base: nat, buf: Buf, at: nat, a: nat,
                                   depth: nat)
    requires Ready(base, buf, at, Extent(types, k)) && IsRaw(k)
    requires Walk(types, remote, k, a, depth).Some?
    ensures var r := Copy(types, remote, k, SizeOf(types, k).value, base, buf, at, a, depth);
            r.status == Good && Preserved(types, k, base, buf, r.buf, at, depth, Walk(types, remote, k, a, depth).value)
  {
    var n := SizeOf(types, k).value;
    var r := Copy(types, remote, k, n, base, buf, at, a, depth);
    WindowBytes(base, r.buf.mem, Footprint(base, buf, r.buf, at, n), at, n);
    assert r.buf.mem[at..at + n] == Bytes(remote, a, n);
  }

  // ---------- pointers ----------

  /** What `Store` leaves in the slot is what is read back through any window on it. */
  lemma {:induction false} StoreWord(base: nat, buf: Buf, at: nat, p: nat, s: set<nat>)
    requires at + WORD_SIZE <= |buf.mem| && p < WORD_LIMIT
    requires Range(base + at, base + at + WORD_SIZE) <= s
    ensures var m := Window(base, Store(buf, at, WordBytes(p)).buf.mem, s);
            Has(m, base + at, WORD_SIZE) && WordAt(m, base + at) == p
  {
    var mem := Store(buf, at, WordBytes(p)).buf.mem;
    WindowBytes(base, mem, s, at, WORD_SIZE);
    assert mem[at..at + WORD_SIZE] == WordBytes(p);
    WordBytesRoundTrip(p);
  }

  lemma {:induction false} CopyNull(types: seq<TsType>, k: Kind, base: nat, buf: Buf, at: nat, depth: nat)
    requires k.Pointer? && Ready(base, buf, at, POINTER_SIZE)
    ensures var r := Store(buf, at, WordBytes(0));
            r.status == Good && Preserved(types, k, base, buf, r.buf, at, depth, Null)
  {
    var r := Store(buf, at, WordBytes(0));
    StoreWord(base, buf, at, 0, Footprint(base, buf, r.buf, at, Extent(types, k)));
  }

  /** Writing the slot at `at` keeps a block of `n` bytes, and all that was added
      with it, as they were. */
  lemma {:induction false} KeepBlock(base: nat, buf: Buf, n: nat, done: Buf, at: nat, data: seq<Byte>)
    requires Ready(base, buf, at, |data|) && buf.size + n <= done.size
    requires Framed(buf.(size := buf.size + n), done, buf.size, n) && Zeroed(done)
    ensures var r := Store(done, at, data);
            && r.status == Good && Zeroed(r.buf) && Framed(buf, r.buf, at, |data|)
            && SubMem(Window(base, done.mem, Range(base + buf.size, base + done.size)),
                      Window(base, r.buf.mem, Footprint(base, buf, r.buf, at, |data|)))
  {
  }

  lemma {:induction false} ReadyAddress(base: nat, buf: Buf, at: nat, n: nat)
    requires Ready(base, buf, at, n)
    ensures base + buf.size < WORD_LIMIT && buf.size <= |buf.mem|
  {
  }

  /** A slot that holds the address of a target that can be walked is a preserved pointer. */
  lemma {:induction false} RefPreserved(types: seq<TsType>, k: Kind, base: nat, buf: Buf, stored: Buf, at: nat,
                                        depth: nat, e: Element, w: Value)
    requires k.Pointer? && depth > 0 && base > 0 && Resolve(types, k.element) == Okay(e)
    requires Zeroed(stored) && Framed(buf, stored, at, POINTER_SIZE)
    requires stored.size == buf.size + e.size + Span(types, e.kind, w)
    requires var m := Window(base, stored.mem, Footprint(base, buf, stored, at, POINTER_SIZE));
             && Has(m, base + at, WORD_SIZE) && WordAt(m, base + at) == base + buf.size
             && Walk(types, m, e.kind, base + buf.size, depth - 1) == Some(Image(w))
    ensures Preserved(types, k, base, buf, stored, at, depth, Ref(w))
  {
  }

  /** What could be walked where the target was copied still can be once the slot is written. */
  lemma {:induction false} KeepWalked(types: seq<TsType>, base: nat, buf: Buf, n: nat, done: Buf, at: nat,
                                      data: seq<Byte>, k: Kind, depth: nat, v: Value)
    requires Ready(base, buf, at, |data|) && Extent(types, k) <= n
    requires Preserved(types, k, base, buf.(size := buf.size + n), done, buf.size, depth, v)
    ensures var r := Store(done, at, data);
            && r.status == Good && Zeroed(r.buf) && Framed(buf, r.buf, at, |data|)
            && Walk(types, Window(base, r.buf.mem, Footprint(base, buf, r.buf, at, |data|)), k, base + buf.size,
               depth) == Some(Image(v))
  {
    hide DeepCopy.Walk, DeepCopy.Image;
    var grown := buf.(size := buf.size + n);
    KeepBlock(base, buf, n, done, at, data);
    var inner := Window(base, done.mem, Footprint(base, grown, done, buf.size, Extent(types, k)));
    var outer := Window(base, Store(done, at, data).buf.mem,
      Footprint(base, buf, Store(done, at, data).buf, at, |data|));
    assert SubMem(inner, outer);
    WalkMono(types, inner, outer, k, base + buf.size, depth);
  }

  /** Storing the address of a preserved target preserves the pointer. */
  lemma {:induction false} CopyRef(types: seq<TsType>, k: Kind, base: nat, buf: Buf, done: Buf, at: nat, depth: nat,
                                   e: Element, w: Value)
    requires k.Pointer? && depth > 0 && Ready(base, buf, at, POINTER_SIZE)
    requires Resolve(types, k.element) == Okay(e) && Extent(types, e.kind) == e.size
    requires Preserved(types, e.kind, base, buf.(size := buf.size + e.size), done, buf.size, depth - 1, w)
    ensures var r := Store(done, at, WordBytes(base + buf.size));
            r.status == Good && Preserved(types, k, base, buf, r.buf, at, depth, Ref(w))
  {
    hide DeepCopy.Walk, DeepCopy.Image, TypeTable.Resolve, Memory.FromWord, Memory.ToWord, Zeroed, Framed, Window,
      Range, Memory.Splice;
    ReadyAddress(base, buf, at, POINTER_SIZE);
    var stored := Store(done, at, WordBytes(base + buf.size)).buf;
    KeepWalked(types, base, buf, e.size, done, at, WordBytes(base + buf.size), e.kind, depth - 1, w);
    StoreWord(base, done, at, base + buf.size, Footprint(base, buf, stored, at, POINTER_SIZE));
    RefPreserved(types, k, base, buf, stored, at, depth, e, w);
  }

  // ---------- memory full of zeros ----------

  ghost predicate ZeroAt(m: Mem, a: nat, n: nat) {
    forall x | a <= x < a + n :: x in m && m[x] == 0
  }

  lemma {:induction false} ZerosRead(m: Mem, a: nat, n: nat)
    requires ZeroAt(m, a, n)
    ensures Has(m, a, n) && Bytes(m, a, n) == seq(n, _ => 0)
  {
  }

  lemma {:induction false} ZerosWithin(m: Mem, a: nat, n: nat, offset: nat, n': nat)
    requires ZeroAt(m, a, n) && offset + n' <= n
    ensures ZeroAt(m, a + offset, n')
  {
  }

  lemma {:induction false} BlanksSnoc(vs: seq<Value>, v: Value)
    ensures Blanks(vs + [v]) == Blanks(vs) + [Blank(v)]
  {
  }

  lemma {:induction false} WalkFieldsSnoc(types: seq<TsType>, m: Mem, fields: seq<Field>, a: nat, depth: nat,
                                          front: seq<Value>, v: Value)
    requires fields != [] && WalkFields(types, m, fields[..|fields| - 1], a, depth) == Some(front)
    requires Resolve(types, fields[|fields| - 1].typeName).Okay?
    requires Walk(types, m, Resolve(types, fields[|fields| - 1].typeName).value.kind, a + fields[|fields| - 1].offset,
             depth) == Some(v)
    ensures WalkFields(types, m, fields, a, depth) == Some(front + [v])
  {
  }

  lemma {:induction false} WalkFieldsUnfold(types: seq<TsType>, m: Mem, fields: seq<Field>, a: nat, depth: nat)
    requires fields != [] && WalkFields(types, m, fields, a, depth).Some?
    ensures var last := |fields| - 1;
            var e := Resolve(types, fields[last].typeName);
            var ws := WalkFields(types, m, fields, a, depth).value;
            && e.Okay? && Walk(types, m, e.value.kind, a + fields[last].offset, depth) == Some(ws[last])
            && WalkFields(types, m, fields[..last], a, depth) == Some(ws[..last])
  {
  }

  lemma {:induction false} WalkItemsUnfold(types: seq<TsType>, m: Mem, e: Element, a: nat, count: nat, depth: nat)
    requires count != 0 && WalkItems(types, m, e, a, count, depth).Some?
    ensures var ws := WalkItems(types, m, e, a, count, depth).value;
            && Walk(types, m, e.kind, a, depth) == Some(ws[0])
            && WalkItems(types, m, e, a + e.size, count - 1, depth) == Some(ws[1..])
  {
  }

  lemma {:induction false} LastFieldRoom(types: seq<TsType>, size: nat, fields: seq<Field>, e: Element)
    requires fields != [] && FieldsLaid(types, size, fields) && Resolve(types, fields[|fields| - 1].typeName) == Okay(e)
    ensures FieldsLaid(types, size, fields[..|fields| - 1])
    ensures fields[|fields| - 1].offset + Extent(types, e.kind) <= size
  {
  }

  /** Where a value of this kind is found, zeros are found as its blank value. */
  lemma {:induction false} WalkZeros(types: seq<TsType>, m: Mem, m': Mem, k: Kind, a: nat, a': nat, depth: nat)
    requires Laid(types) && KindLaid(types, k)
    requires Walk(types, m, k, a, depth).Some?
    requires ZeroAt(m', a', Extent(types, k))
    ensures Walk(types, m', k, a', depth) == Some(Blank(Walk(types, m, k, a, depth).value))
    decreases depth, 1, 0
  {
    match k
    case Invalid =>
    case Struct(size, fields) =>
      WalkFieldZeros(types, m, m', size, fields, a, a', depth - 1);
    case Pointer(_) => ZerosRead(m', a', WORD_SIZE); ZeroWord(WORD_SIZE);
    case ArrayPointer(_) => ZerosRead(m', a', WORD_SIZE); ZeroWord(WORD_SIZE); ZerosRead(m', a', ARRAY_POINTER_SIZE);
    case _ => ZerosRead(m', a', SizeOf(types, k).value);
  }

  lemma {:induction false} WalkFieldZeros(types: seq<TsType>, m: Mem, m': Mem, size: nat, fields: seq<Field>, a: nat,
                                          a': nat, depth: nat)
    requires Laid(types) && FieldsLaid(types, size, fields)
    requires WalkFields(types, m, fields, a, depth).Some?
    requires ZeroAt(m', a', size)
    ensures var vs := WalkFields(types, m, fields, a, depth).value;
            WalkFields(types, m', fields, a', depth) == Some(Blanks(vs))
    decreases depth, 2, |fields|
  {
    hide *;
    if fields == [] {
      NoFieldsWalked(types, m, a, depth);
      NoFieldsWalked(types, m', a', depth);
    } else {
      var last := |fields| - 1;
      WalkFieldsUnfold(types, m, fields, a, depth);
      var vs := WalkFields(types, m, fields, a, depth).value;
      var e, offset := Resolve(types, fields[last].typeName).value, fields[last].offset;
      LastFieldRoom(types, size, fields, e);
      WalkFieldZeros(types, m, m', size, fields[..last], a, a', depth);
      ResolvedLaid(types, fields[last].typeName);
      ZerosWithin(m', a', size, offset, Extent(types, e.kind));
      WalkZeros(types, m, m', e.kind, a + offset, a' + offset, depth);
      WalkFieldsSnoc(types, m', fields, a', depth, Blanks(vs[..last]), Blank(vs[last]));
      BlanksSnoc(vs[..last], vs[last]);
      assert vs == vs[..last] + [vs[last]];
    }
  }

  lemma {:induction false} NoFieldsWalked(types: seq<TsType>, m: Mem, a: nat, depth: nat)
    ensures WalkFields(types, m, [], a, depth) == Some([]) && Blanks([]) == []
  {
  }

  lemma {:induction false} WalkItemsCons(types: seq<TsType>, m: Mem, e: Element, a: nat, count: nat, depth: nat,
                                         v: Value, rest: seq<Value>)
    requires count > 0 && Walk(types, m, e.kind, a, depth) == Some(v)
    requires WalkItems(types, m, e, a + e.size, count - 1, depth) == Some(rest)
    ensures WalkItems(types, m, e, a, count, depth) == Some([v] + rest)
  {
  }

  lemma {:induction false} BlanksCons(v: Value, vs: seq<Value>)
    ensures Blanks([v] + vs) == [Blank(v)] + Blanks(vs)
  {
  }

  lemma {:induction false} WalkItemZeros(types: seq<TsType>, m: Mem, m': Mem, e: Element, a: nat, a': nat, count: nat,
                                         depth: nat)
    requires Laid(types) && KindLaid(types, e.kind) && Extent(types, e.kind) == e.size
    requires WalkItems(types, m, e, a, count, depth).Some?
    requires ZeroAt(m', a', Total(e.size, count))
    ensures var vs := WalkItems(types, m, e, a, count, depth).value;
            WalkItems(types, m', e, a', count, depth) == Some(Blanks(vs))
    decreases depth, 2, count
  {
    if count != 0 {
      hide DeepCopy.Walk, DeepCopy.Blank, KindLaid, TypeTable.SizeOf;
      WalkZeros(types, m, m', e.kind, a, a', depth);
      WalkItemZeros(types, m, m', e, a + e.size, a' + e.size, count - 1, depth);
      WalkItemsCons(types, m', e, a', count, depth, Blank(Walk(types, m, e.kind, a, depth).value),
        Blanks(WalkItems(types, m, e, a + e.size, count - 1, depth).value));
      BlanksCons(Walk(types, m, e.kind, a, depth).value, WalkItems(types, m, e, a + e.size, count - 1, depth).value);
    }
  }

  // ---------- array pointers ----------

  ghost predicate SameBytes(m: Mem, a: nat, m': Mem, a': nat, n: nat) {
    forall x | a' <= x < a' + n :: x in m' && (x - a' + a in m ==> m'[x] == m[x - a' + a])
  }

  /** Raw elements are their bytes, so equal bytes are equal elements. */
  lemma {:induction false} WalkRawItems(types: seq<TsType>, m: Mem, m': Mem, e: Element, a: nat, a': nat, count: nat,
                                        depth: nat)
    requires IsRaw(e.kind) && SizeOf(types, e.kind) == Okay(e.size)
    requires WalkItems(types, m, e, a, count, depth).Some?
    requires SameBytes(m, a, m', a', Total(e.size, count))
    ensures WalkItems(types, m', e, a', count, depth) == WalkItems(types, m, e, a, count, depth)
    decreases count
  {
    if count != 0 {
      assert Bytes(m', a', e.size) == Bytes(m, a, e.size);
      WalkRawItems(types, m, m', e, a + e.size, a' + e.size, count - 1, depth);
    }
  }

  /** All the bytes of raw elements that are found can be read. */
  lemma {:induction false} RawItemsReadable(types: seq<TsType>, m: Mem, e: Element, a: nat, count: nat, depth: nat)
    requires IsRaw(e.kind) && SizeOf(types, e.kind) == Okay(e.size)
    requires WalkItems(types, m, e, a, count, depth).Some?
    ensures Has(m, a, Total(e.size, count))
    decreases count
  {
    if count != 0 {
      RawItemsReadable(types, m, e, a + e.size, count - 1, depth);
    }
  }

  lemma {:induction false} WalkSlice(types: seq<TsType>, m: Mem, k: Kind, a: nat, depth: nat, e: Element, count: nat,
                                     vs: seq<Value>)
    requires k.ArrayPointer? && Resolve(types, k.element) == Okay(e) && depth > 0
    requires Has(m, a, ARRAY_POINTER_SIZE) && WordAt(m, a) == count != 0 && WordAt(m, a + WORD_SIZE) != 0
    requires WalkItems(types, m, e, WordAt(m, a + WORD_SIZE), count, depth - 1) == Some(vs)
    ensures Walk(types, m, k, a, depth) == Some(Slice(vs))
  {
  }

  /** What `Store` leaves of an array pointer is read back through any window on the slot. */
  lemma {:induction false} StoreSlice(base: nat, buf: Buf, at: nat, count: nat, p: nat, s: set<nat>)
    requires at + ARRAY_POINTER_SIZE <= |buf.mem| && count < WORD_LIMIT && p < WORD_LIMIT
    requires Range(base + at, base + at + ARRAY_POINTER_SIZE) <= s
    ensures var m := Window(base, Store(buf, at, WordBytes(count) + WordBytes(p)).buf.mem, s);
            && Has(m, base + at, ARRAY_POINTER_SIZE)
            && WordAt(m, base + at) == count && WordAt(m, base + at + WORD_SIZE) == p
  {
    hide Memory.FromWord, Memory.ToWord, Window;
    var data := WordBytes(count) + WordBytes(p);
    var mem := Store(buf, at, data).buf.mem;
    WindowBytes(base, mem, s, at, ARRAY_POINTER_SIZE);
    WindowBytes(base, mem, s, at, WORD_SIZE);
    WindowBytes(base, mem, s, at + WORD_SIZE, WORD_SIZE);
    assert mem[at..at + WORD_SIZE] == WordBytes(count);
    assert mem[at + WORD_SIZE..at + WORD_SIZE + WORD_SIZE] == WordBytes(p);
    WordBytesRoundTrip(count);
    WordBytesRoundTrip(p);
  }

  /** A slot that holds the count and the address of an array that can be walked is a preserved array pointer. */
  lemma {:induction false} SlicePreserved(types: seq<TsType>, k: Kind, base: nat, buf: Buf, stored: Buf, at: nat,
                                          depth: nat, e: Element, vs: seq<Value>, images: seq<Value>)
    requires k.ArrayPointer? && depth > 0 && base > 0 && Resolve(types, k.element) == Okay(e) && vs != []
    requires Slice(images) == Image(Slice(vs)) && |images| == |vs|
    requires Zeroed(stored) && Framed(buf, stored, at, ARRAY_POINTER_SIZE)
    requires stored.size == buf.size + Total(e.size, |vs|) + Span(types, e.kind, vs[0])
    requires var m := Window(base, stored.mem, Footprint(base, buf, stored, at, ARRAY_POINTER_SIZE));
             && Has(m, base + at, ARRAY_POINTER_SIZE) && WordAt(m, base + at) == |vs|
                && WordAt(m, base + at + WORD_SIZE) == base + buf.size
             && WalkItems(types, m, e, base + buf.size, |vs|, depth - 1) == Some(images)
    ensures Preserved(types, k, base, buf, stored, at, depth, Slice(vs))
  {
    hide DeepCopy.WalkItems;
    var m := Window(base, stored.mem, Footprint(base, buf, stored, at, ARRAY_POINTER_SIZE));
    WalkSlice(types, m, k, base + at, depth, e, |vs|, images);
  }

  /** A fresh block filled from the remote memory holds the remote bytes, also
      after the slot is written. */
  lemma {:induction false} FetchedBlock(remote: Mem, p: nat, n: nat, base: nat, buf: Buf, at: nat, data: seq<Byte>)
    requires Ready(base, buf, at, |data|) && Has(remote, p, n) && buf.size + n <= |buf.mem|
    ensures var done := Fetch(remote, p, n, buf.(size := buf.size + n), buf.size);
            var r := Store(done.buf, at, data);
            && done.status == r.status == Good && r.buf.size == buf.size + n
            && Zeroed(r.buf) && Framed(buf, r.buf, at, |data|)
            && SameBytes(remote, p, Window(base, r.buf.mem, Footprint(base, buf, r.buf, at, |data|)),
               base + buf.size, n)
  {
    hide Window, Range;
    var done := Fetch(remote, p, n, buf.(size := buf.size + n), buf.size).buf;
    var stored := Store(done, at, data).buf;
    var outer := Window(base, stored.mem, Footprint(base, buf, stored, at, |data|));
    forall x | base + buf.size <= x < base + buf.size + n
      ensures x in outer && outer[x] == remote[x - (base + buf.size) + p]
    {
      WindowAt(base, stored.mem, Footprint(base, buf, stored, at, |data|), x);
      assert stored.mem[x - base] == done.mem[x - base] == Bytes(remote, p, n)[x - base - buf.size];
    }
  }

  lemma {:induction false} FirstItem(types: seq<TsType>, m: Mem, e: Element, a: nat, count: nat, depth: nat)
    requires count > 0 && WalkItems(types, m, e, a, count, depth).Some?
    ensures Some(WalkItems(types, m, e, a, count, depth).value[0]) == Walk(types, m, e.kind, a, depth)
    ensures WalkItems(types, m, e, a, count, depth).value[0].Raw? <==> IsRaw(e.kind)
  {
  }

  lemma {:induction false} CopyRawSlice(types: seq<TsType>, remote: Mem, k: Kind, base: nat, buf: Buf, at: nat,
                                        depth: nat, e: Element, p: nat, count: nat, vs: seq<Value>)
    requires k.ArrayPointer? && depth > 0 && Ready(base, buf, at, ARRAY_POINTER_SIZE)
    requires Resolve(types, k.element) == Okay(e) && IsRaw(e.kind) && SizeOf(types, e.kind) == Okay(e.size)
    requires 0 < count < WORD_LIMIT && WalkItems(types, remote, e, p, count, depth - 1) == Some(vs)
    requires buf.size + Total(e.size, count) <= |buf.mem|
    ensures var n := Total(e.size, count);
            var done := Fetch(remote, p, n, buf.(size := buf.size + n), buf.size);
            var r := Store(done.buf, at, WordBytes(count) + WordBytes(base + buf.size));
            done.status == r.status == Good && Preserved(types, k, base, buf, r.buf, at, depth, Slice(vs))
  {
    hide Memory.FromWord, Memory.ToWord, DeepCopy.Walk, DeepCopy.WalkItems, Zeroed, Framed, Memory.Splice,
      Window, Range;
    FirstItem(types, remote, e, p, count, depth - 1);
    ReadyAddress(base, buf, at, ARRAY_POINTER_SIZE);
    var n := Total(e.size, count);
    RawItemsReadable(types, remote, e, p, count, depth - 1);
    var data := WordBytes(count) + WordBytes(base + buf.size);
    FetchedBlock(remote, p, n, base, buf, at, data);
    var done := Fetch(remote, p, n, buf.(size := buf.size + n), buf.size).buf;
    var stored := Store(done, at, data).buf;
    var outer := Window(base, stored.mem, Footprint(base, buf, stored, at, ARRAY_POINTER_SIZE));
    WalkRawItems(types, remote, outer, e, p, base + buf.size, count, depth - 1);
    StoreSlice(base, done, at, count, base + buf.size, Footprint(base, buf, stored, at, ARRAY_POINTER_SIZE));
    SlicePreserved(types, k, base, buf, stored, at, depth, e, vs, vs);
  }

  lemma {:induction false} CopyFirstOfSlice(types: seq<TsType>, remote: Mem, k: Kind, base: nat, buf: Buf, done: Buf,
                                            at: nat, depth: nat, e: Element, p: nat, count: nat, vs: seq<Value>)
    requires k.ArrayPointer? && depth > 0 && Ready(base, buf, at, ARRAY_POINTER_SIZE)
    requires Resolve(types, k.element) == Okay(e) && !IsRaw(e.kind) && Extent(types, e.kind) == e.size
    requires Laid(types) && KindLaid(types, e.kind)
    requires 0 < count < WORD_LIMIT && WalkItems(types, remote, e, p, count, depth - 1) == Some(vs)
    requires var grown := buf.(size := buf.size + Total(e.size, count));
             Preserved(types, e.kind, base, grown, done, buf.size, depth - 1, vs[0])
    ensures var r := Store(done, at, WordBytes(count) + WordBytes(base + buf.size));
            r.status == Good && Preserved(types, k, base, buf, r.buf, at, depth, Slice(vs))
  {
    hide Memory.FromWord, Memory.ToWord, DeepCopy.Walk, DeepCopy.WalkItems, DeepCopy.Image, KindLaid, Zeroed, Framed,
      Window, Range, Memory.Splice, TypeTable.SizeOf;
    ReadyAddress(base, buf, at, ARRAY_POINTER_SIZE);
    var n := Total(e.size, count);
    var data := WordBytes(count) + WordBytes(base + buf.size);
    var stored := Store(done, at, data).buf;
    KeepWalked(types, base, buf, n, done, at, data, e.kind, depth - 1, vs[0]);
    var outer := Window(base, stored.mem, Footprint(base, buf, stored, at, ARRAY_POINTER_SIZE));
    assert ZeroAt(outer, base + buf.size + e.size, Total(e.size, count - 1)) by {
      RestIsZero(base, buf, n, e.size, done, at, data);
    }
    ItemsImage(types, remote, outer, e, p, base + buf.size, count, depth - 1, vs);
    StoreSlice(base, done, at, count, base + buf.size, Footprint(base, buf, stored, at, ARRAY_POINTER_SIZE));
    SlicePreserved(types, k, base, buf, stored, at, depth, e, vs,
                   WalkItems(types, outer, e, base + buf.size, count, depth - 1).value);
  }

  /** The first element followed by zeros is found as the image of all the elements. */
  lemma {:induction false} ItemsImage(types: seq<TsType>, remote: Mem, m: Mem, e: Element, p: nat, a: nat, count: nat,
                                      depth: nat, vs: seq<Value>)
    requires !IsRaw(e.kind) && Extent(types, e.kind) == e.size && Laid(types) && KindLaid(types, e.kind)
    requires count > 0 && WalkItems(types, remote, e, p, count, depth) == Some(vs)
    requires Walk(types, m, e.kind, a, depth) == Some(Image(vs[0]))
    requires ZeroAt(m, a + e.size, Total(e.size, count - 1))
    ensures WalkItems(types, m, e, a, count, depth).Some?
    ensures Slice(WalkItems(types, m, e, a, count, depth).value) == Image(Slice(vs))
  {
    hide DeepCopy.Walk, KindLaid, TypeTable.SizeOf, DeepCopy.Blank;
    FirstItem(types, remote, e, p, count, depth);
    WalkItemZeros(types, remote, m, e, p + e.size, a + e.size, count - 1, depth);
    WalkItemsCons(types, m, e, a, count, depth, Image(vs[0]),
                  Blanks(WalkItems(types, remote, e, p + e.size, count - 1, depth).value));
    assert vs[1..] == WalkItems(types, remote, e, p + e.size, count - 1, depth).value;
  }

  /** Of a fresh block of `n` bytes, what lies behind the first `size` is still zero. */
  lemma {:induction false} RestIsZero(base: nat, buf: Buf, n: nat, size: nat, done: Buf, at: nat, data: seq<Byte>)
    requires Ready(base, buf, at, |data|) && size <= n && buf.size + n <= done.size && Zeroed(done)
    requires Framed(buf.(size := buf.size + n), done, buf.size, size)
    ensures var stored := Store(done, at, data).buf;
            ZeroAt(Window(base, stored.mem, Footprint(base, buf, stored, at, |data|)), base + buf.size + size, n - size)
  {
  }

  // ---------- structs ----------

  /** The addresses of the slots of the fields of a struct at `a`. */
  ghost function Slots(types: seq<TsType>, fields: seq<Field>, a: nat): set<nat>
    decreases |fields|
  {
    if fields == [] then {}
    else
      var f := fields[|fields| - 1];
      Slots(types, fields[..|fields| - 1], a) + Range(a + f.offset, a + f.offset + FieldExtent(types, f))
  }

  lemma {:induction false} SlotsWithin(types: seq<TsType>, size: nat, fields: seq<Field>, a: nat)
    requires FieldsLaid(types, size, fields)
    ensures Slots(types, fields, a) <= Range(a, a + size)
    decreases |fields|
  {
    if fields != [] {
      SlotsWithin(types, size, fields[..|fields| - 1], a);
    }
  }

  lemma {:induction false} SlotsApart(types: seq<TsType>, fields: seq<Field>, a: nat, o: nat, n: nat)
    requires Apart(types, fields, o, n)
    ensures Slots(types, fields, a) !! Range(a + o, a + o + n)
    decreases |fields|
  {
    if fields != [] {
      var f := fields[|fields| - 1];
      assert f in fields;
      SlotsApart(types, fields[..|fields| - 1], a, o, n);
    }
  }

  ghost function FieldsFootprint(types: seq<TsType>, fields: seq<Field>, base: nat, buf: Buf, buf': Buf,
                                 at: nat): set<nat> {
    Slots(types, fields, base + at) + Range(base + buf.size, base + buf'.size)
  }

  ghost predicate FieldsPreserved(types: seq<TsType>, size: nat, fields: seq<Field>, base: nat, buf: Buf, buf': Buf,
                                  at: nat, depth: nat, vs: seq<Value>)
    requires |vs| == |fields|
  {
    && Zeroed(buf')
    && buf'.size == buf.size + SpanFields(types, fields, vs)
    && Framed(buf, buf', at, size)
    && WalkFields(types, Window(base, buf'.mem, FieldsFootprint(types, fields, base, buf, buf', at)), fields,
       base + at, depth) == Some(Images(vs))
  }

  /** What `mid` holds of the first fields survives the copy of the next one. */
  lemma {:induction false} KeepFields(types: seq<TsType>, size: nat, fields: seq<Field>, base: nat, buf: Buf, mid: Buf,
                                      buf': Buf, at: nat, o: nat, n: nat, s: set<nat>)
    requires FieldsLaid(types, size, fields) && Apart(types, fields, o, n) && o + n <= size
    requires buf.size <= mid.size <= |mid.mem| && at + size <= buf.size && Framed(mid, buf', at + o, n)
    requires FieldsFootprint(types, fields, base, buf, mid, at) <= s
    ensures SubMem(Window(base, mid.mem, FieldsFootprint(types, fields, base, buf, mid, at)), Window(base, buf'.mem, s))
  {
    hide Slots, FieldsLaid, Apart, Window;
    SlotsWithin(types, size, fields, base + at);
    SlotsApart(types, fields, base + at, o, n);
    var inner := FieldsFootprint(types, fields, base, buf, mid, at);
    forall i | 0 <= i < |mid.mem| && base + i in inner ensures buf'.mem[i] == mid.mem[i] {
      assert base + i !in Range(base + at + o, base + at + o + n);
    }
    WindowMono(base, mid.mem, buf'.mem, inner, s);
  }

  lemma {:induction false} ImagesSnoc(vs: seq<Value>, v: Value)
    ensures Images(vs + [v]) == Images(vs) + [Image(v)]
  {
  }

  lemma {:induction false} FrameStep(buf: Buf, mid: Buf, buf': Buf, at: nat, size: nat, o: nat, n: nat)
    requires Framed(buf, mid, at, size) && Framed(mid, buf', at + o, n)
    requires o + n <= size && buf.size <= mid.size && Zeroed(buf)
    ensures Framed(buf, buf', at, size)
  {
  }

  /** The copies of the first fields and of the next one are found together. */
  lemma {:induction false} WalkTogether(types: seq<TsType>, fields: seq<Field>, m: Mem, m': Mem, m'': Mem, a: nat,
                                        depth: nat, e: Element, front: seq<Value>, v: Value)
    requires fields != [] && Resolve(types, fields[|fields| - 1].typeName) == Okay(e)
    requires SubMem(m, m'') && SubMem(m', m'')
    requires WalkFields(types, m, fields[..|fields| - 1], a, depth) == Some(front)
    requires Walk(types, m', e.kind, a + fields[|fields| - 1].offset, depth) == Some(v)
    ensures WalkFields(types, m'', fields, a, depth) == Some(front + [v])
  {
    WalkFieldsMono(types, m, m'', fields[..|fields| - 1], a, depth);
    WalkMono(types, m', m'', e.kind, a + fields[|fields| - 1].offset, depth);
    WalkFieldsSnoc(types, m'', fields, a, depth, front, v);
  }

  lemma {:induction false} FieldsMemory(types: seq<TsType>, size: nat, fields: seq<Field>, base: nat, buf: Buf,
                                        mid: Buf, buf': Buf, at: nat, n: nat)
    requires fields != [] && FieldsLaid(types, size, fields) && n == FieldExtent(types, fields[|fields| - 1])
    requires at + size <= buf.size <= mid.size <= buf'.size && Zeroed(buf) && Zeroed(mid)
    requires Framed(buf, mid, at, size) && Framed(mid, buf', at + fields[|fields| - 1].offset, n)
    ensures Framed(buf, buf', at, size)
    ensures var all := Window(base, buf'.mem, FieldsFootprint(types, fields, base, buf, buf', at));
            && SubMem(Window(base, mid.mem, FieldsFootprint(types, fields[..|fields| - 1], base, buf, mid, at)), all)
            && SubMem(Window(base, buf'.mem, Footprint(base, mid, buf', at + fields[|fields| - 1].offset, n)), all)
  {
    hide TypeTable.Resolve;
    var last := |fields| - 1;
    var o := fields[last].offset;
    var all := FieldsFootprint(types, fields, base, buf, buf', at);
    FrameStep(buf, mid, buf', at, size, o, n);
    KeepFields(types, size, fields[..last], base, buf, mid, buf', at, o, n, all);
    WindowMono(base, buf'.mem, buf'.mem, Footprint(base, mid, buf', at + o, n), all);
  }

  lemma {:induction false} FieldsStep(types: seq<TsType>, size: nat, fields: seq<Field>, base: nat, buf: Buf, mid: Buf,
                                      buf': Buf, at: nat, depth: nat, e: Element, vs: seq<Value>)
    requires fields != [] && FieldsLaid(types, size, fields) && |vs| == |fields| && at + size <= buf.size && Zeroed(buf)
    requires Resolve(types, fields[|fields| - 1].typeName) == Okay(e)
    requires FieldsPreserved(types, size, fields[..|fields| - 1], base, buf, mid, at, depth, vs[..|vs| - 1])
    requires Preserved(types, e.kind, base, mid, buf', at + fields[|fields| - 1].offset, depth, vs[|vs| - 1])
    ensures FieldsPreserved(types, size, fields, base, buf, buf', at, depth, vs)
  {
    hide DeepCopy.Walk, DeepCopy.Image, DeepCopy.Span, TypeTable.Resolve, Zeroed, Framed, Window, Range, Slots,
      Extent, FieldsLaid;
    var last := |fields| - 1;
    var o, n := fields[last].offset, Extent(types, e.kind);
    FieldsMemory(types, size, fields, base, buf, mid, buf', at, n);
    var inner := Window(base, mid.mem, FieldsFootprint(types, fields[..last], base, buf, mid, at));
    var own := Window(base, buf'.mem, Footprint(base, mid, buf', at + o, n));
    var all := Window(base, buf'.mem, FieldsFootprint(types, fields, base, buf, buf', at));
    WalkTogether(types, fields, inner, own, all, base + at, depth, e, Images(vs[..last]), Image(vs[last]));
    ImagesSnoc(vs[..last], vs[last]);
    assert vs[..last] + [vs[last]] == vs;
  }

  // ---------- the main result ----------

  lemma {:induction false} CopyNoItems(types: seq<TsType>, k: Kind, base: nat, buf: Buf, at: nat, depth: nat)
    requires k.ArrayPointer? && Ready(base, buf, at, ARRAY_POINTER_SIZE)
    ensures var r := Store(buf, at, WordBytes(0) + WordBytes(0));
            r.status == Good && Preserved(types, k, base, buf, r.buf, at, depth, Slice([]))
  {
    hide Memory.FromWord, Memory.ToWord, Window, Range, WordAt, DeepCopy.WalkItems, TypeTable.Resolve;
    var r := Store(buf, at, WordBytes(0) + WordBytes(0));
    StoreSlice(base, buf, at, 0, 0, Footprint(base, buf, r.buf, at, ARRAY_POINTER_SIZE));
  }

  /** Whatever can be walked in the remote memory, and fits into the buffer, is copied;
      the copy is found as its image; and only the slot and fresh bytes are written. */
  lemma {:induction false} CopyPreserves(types: seq<TsType>, remote: Mem, k: Kind, n: nat, base: nat, buf: Buf, at: nat,
                                         a: nat, depth: nat)
    requires Laid(types) && KindLaid(types, k) && Ready(base, buf, at, Extent(types, k))
    requires Walk(types, remote, k, a, depth).Some?
    requires IsRaw(k) ==> SizeOf(types, k) == Okay(n)
    requires buf.size + Span(types, k, Walk(types, remote, k, a, depth).value) <= |buf.mem|
    ensures var r := Copy(types, remote, k, n, base, buf, at, a, depth);
            r.status == Good && Preserved(types, k, base, buf, r.buf, at, depth, Walk(types, remote, k, a, depth).value)
    decreases depth, 1, 0
  {
    match k
    case Struct(size, fields) =>
      CopyFieldsPreserves(types, remote, size, fields, base, buf, at, a, depth - 1);
      StructPreserved(types, k, base, buf, CopyFields(types, remote, fields, base, buf, at, a,
          depth - 1).buf, at, depth,
        WalkFields(types, remote, fields, a, depth - 1).value);
    case Pointer(element) =>
      if WordAt(remote, a) == 0 {
        CopyNull(types, k, base, buf, at, depth);
      } else {
        CopyTarget(types, remote, k, n, base, buf, at, a, depth);
      }
    case ArrayPointer(element) =>
      if WordAt(remote, a) == 0 || WordAt(remote, a + WORD_SIZE) == 0 {
        CopyNoItems(types, k, base, buf, at, depth);
      } else {
        CopyItems(types, remote, k, n, base, buf, at, a, depth);
      }
    case _ => CopyRaw(types, remote, k, base, buf, at, a, depth);
  }

  lemma {:induction false} GrownReady(base: nat, buf: Buf, at: nat, n: nat, block: nat, extent: nat)
    requires Ready(base, buf, at, n) && buf.size + block <= |buf.mem| && extent <= block
    ensures Ready(base, buf.(size := buf.size + block), buf.size, extent)
  {
  }

  /** One step of a pointer copy, and of walking it. */
  lemma {:induction false} UnfoldPointer(types: seq<TsType>, remote: Mem, k: Kind, n: nat, base: nat, buf: Buf, at: nat,
                                         a: nat, depth: nat, e: Element)
    requires k.Pointer? && Walk(types, remote, k, a, depth).Some? && Has(remote, a, WORD_SIZE) && WordAt(remote, a) != 0
    requires Resolve(types, k.element) == Okay(e) && KindLaid(types, k)
    ensures !e.kind.ArrayPointer? && depth > 0
    ensures var v := Walk(types, remote, k, a, depth).value;
            && v.Ref? && Walk(types, remote, e.kind, WordAt(remote, a), depth - 1) == Some(v.target)
            && Span(types, k, v) == e.size + Span(types, e.kind, v.target)
    ensures buf.size + e.size <= |buf.mem| ==>
              var r := Copy(types, remote, e.kind, e.size, base, buf.(size := buf.size + e.size), buf.size,
                            WordAt(remote, a), depth - 1);
              r.status == Good ==>
                Copy(types, remote, k, n, base, buf, at, a, depth) == Store(r.buf, at, WordBytes(base + buf.size))
  {
  }

  lemma {:induction false} CopyTarget(types: seq<TsType>, remote: Mem, k: Kind, n: nat, base: nat, buf: Buf, at: nat,
                                      a: nat, depth: nat)
    requires k.Pointer? && Laid(types) && KindLaid(types, k) && Ready(base, buf, at, POINTER_SIZE)
    requires Walk(types, remote, k, a, depth).Some? && Has(remote, a, WORD_SIZE) && WordAt(remote, a) != 0
    requires Resolve(types, k.element).Okay?
    requires buf.size + Span(types, k, Walk(types, remote, k, a, depth).value) <= |buf.mem|
    ensures var r := Copy(types, remote, k, n, base, buf, at, a, depth);
            r.status == Good && Preserved(types, k, base, buf, r.buf, at, depth, Walk(types, remote, k, a, depth).value)
    decreases depth, 0, 0
  {
    hide DeepCopy.Walk, DeepCopy.Copy, DeepCopy.Span, DeepCopy.Image, Zeroed, Framed, Window, Range, Ready, Preserved,
      DeepCopy.Store, KindLaid,
      Laid, TypeTable.Resolve, Memory.FromWord;
    var e := Resolve(types, k.element).value;
    UnfoldPointer(types, remote, k, n, base, buf, at, a, depth, e);
    var v := Walk(types, remote, k, a, depth).value.target;
    var grown := buf.(size := buf.size + e.size);
    ResolvedLaid(types, k.element);
    GrownReady(base, buf, at, POINTER_SIZE, e.size, Extent(types, e.kind));
    CopyPreserves(types, remote, e.kind, e.size, base, grown, buf.size, WordAt(remote, a), depth - 1);
    var done := Copy(types, remote, e.kind, e.size, base, grown, buf.size, WordAt(remote, a), depth - 1).buf;
    CopyRef(types, k, base, buf, done, at, depth, e, v);
  }

  /** One step of an array pointer copy, and of walking it. */
  lemma {:induction false} UnfoldArrayPointer(types: seq<TsType>, remote: Mem, k: Kind, n: nat, base: nat, buf: Buf,
                                              at: nat, a: nat, depth: nat, e: Element, block: nat)
    requires k.ArrayPointer? && Walk(types, remote, k, a, depth).Some? && Has(remote, a, ARRAY_POINTER_SIZE)
    requires WordAt(remote, a) != 0 && WordAt(remote, a + WORD_SIZE) != 0
    requires Resolve(types, k.element) == Okay(e) && KindLaid(types, k)
    requires block == Total(e.size, WordAt(remote, a)) == e.size * WordAt(remote, a)
    ensures !e.kind.ArrayPointer? && depth > 0
    ensures var v := Walk(types, remote, k, a, depth).value;
            && v.Slice? && v.items != []
            && WalkItems(types, remote, e, WordAt(remote, a + WORD_SIZE), WordAt(remote, a), depth - 1) == Some(v.items)
            && Span(types, k, v) == block + Span(types, e.kind, v.items[0])
    ensures buf.size + block <= |buf.mem| ==>
              var r := Copy(types, remote, e.kind, block, base, buf.(size := buf.size + block), buf.size,
                            WordAt(remote, a + WORD_SIZE), depth - 1);
              r.status == Good ==>
                Copy(types, remote, k, n, base, buf, at, a, depth) ==
                    Store(r.buf, at, WordBytes(WordAt(remote, a)) + WordBytes(base + buf.size))
  {
    var vs := WalkItems(types, remote, e, WordAt(remote, a + WORD_SIZE), WordAt(remote, a), depth - 1);
    assert |vs.value| == WordAt(remote, a);
  }

  lemma {:induction false} CopyItems(types: seq<TsType>, remote: Mem, k: Kind, n: nat, base: nat, buf: Buf, at: nat,
                                     a: nat, depth: nat)
    requires k.ArrayPointer? && Laid(types) && KindLaid(types, k) && Ready(base, buf, at, ARRAY_POINTER_SIZE)
    requires Walk(types, remote, k, a, depth).Some? && Has(remote, a, ARRAY_POINTER_SIZE)
    requires WordAt(remote, a) != 0 && WordAt(remote, a + WORD_SIZE) != 0 && Resolve(types, k.element).Okay?
    requires buf.size + Span(types, k, Walk(types, remote, k, a, depth).value) <= |buf.mem|
    ensures var r := Copy(types, remote, k, n, base, buf, at, a, depth);
            r.status == Good && Preserved(types, k, base, buf, r.buf, at, depth, Walk(types, remote, k, a, depth).value)
    decreases depth, 0, 0
  {
    hide DeepCopy.Walk, DeepCopy.WalkItems, DeepCopy.Span, DeepCopy.Image, Zeroed, Framed, Window, Range, Ready,
      Preserved, DeepCopy.Store, KindLaid,
      Laid, TypeTable.Resolve, Memory.FromWord, DeepCopy.Copy;
    var e := Resolve(types, k.element).value;
    var count, p := WordAt(remote, a), WordAt(remote, a + WORD_SIZE);
    var block := Total(e.size, count);
    TotalIsProduct(e.size, count);
    UnfoldArrayPointer(types, remote, k, n, base, buf, at, a, depth, e, block);
    WordAtBound(remote, a);
    ResolvedLaid(types, k.element);
    var vs := Walk(types, remote, k, a, depth).value.items;
    FirstItem(types, remote, e, p, count, depth - 1);
    if IsRaw(e.kind) {
      UnfoldRaw(types, remote, e.kind, block, base, buf.(size := buf.size + block), buf.size, p, depth - 1);
      CopyRawSlice(types, remote, k, base, buf, at, depth, e, p, count, vs);
    } else {
      var grown := buf.(size := buf.size + block);
      OneItemFits(e.size, count);
      GrownReady(base, buf, at, ARRAY_POINTER_SIZE, block, Extent(types, e.kind));
      CopyPreserves(types, remote, e.kind, block, base, grown, buf.size, p, depth - 1);
      var done := Copy(types, remote, e.kind, block, base, grown, buf.size, p, depth - 1).buf;
      CopyFirstOfSlice(types, remote, k, base, buf, done, at, depth, e, p, count, vs);
    }
  }

  lemma {:induction false} UnfoldRaw(types: seq<TsType>, remote: Mem, k: Kind, n: nat, base: nat, buf: Buf, at: nat,
                                     a: nat, depth: nat)
    requires IsRaw(k)
    ensures Copy(types, remote, k, n, base, buf, at, a, depth) == Fetch(remote, a, n, buf, at)
  {
  }

  lemma {:induction false} OneItemFits(size: nat, count: nat)
    requires count > 0
    ensures size <= Total(size, count)
  {
  }

  lemma {:induction false} StructPreserved(types: seq<TsType>, k: Kind, base: nat, buf: Buf, buf': Buf, at: nat,
                                           depth: nat, vs: seq<Value>)
    requires k.Struct? && KindLaid(types, k) && depth > 0 && |vs| == |k.fields|
    requires FieldsPreserved(types, k.structSize, k.fields, base, buf, buf', at, depth - 1, vs)
    ensures Preserved(types, k, base, buf, buf', at, depth, Record(vs))
  {
    SlotsWithin(types, k.structSize, k.fields, base + at);
    var inner := FieldsFootprint(types, k.fields, base, buf, buf', at);
    var outer := Footprint(base, buf, buf', at, Extent(types, k));
    WindowMono(base, buf'.mem, buf'.mem, inner, outer);
    WalkFieldsMono(types, Window(base, buf'.mem, inner), Window(base, buf'.mem, outer), k.fields, base + at, depth - 1);
  }

  /** One step of the struct loop, and of walking it. */
  lemma {:induction false} UnfoldFields(types: seq<TsType>, remote: Mem, fields: seq<Field>, base: nat, buf: Buf,
                                        at: nat, a: nat, depth: nat, e: Element)
    requires fields != [] && WalkFields(types, remote, fields, a, depth).Some?
    requires Resolve(types, fields[|fields| - 1].typeName) == Okay(e)
    ensures var last := |fields| - 1;
            var vs := WalkFields(types, remote, fields, a, depth).value;
            && WalkFields(types, remote, fields[..last], a, depth) == Some(vs[..last])
            && Walk(types, remote, e.kind, a + fields[last].offset, depth) == Some(vs[last])
            && SpanFields(types, fields, vs) == SpanFields(types, fields[..last], vs[..last]) + Span(types,
               e.kind, vs[last])
    ensures var last := |fields| - 1;
            var front := CopyFields(types, remote, fields[..last], base, buf, at, a, depth);
            var next := Copy(types, remote, e.kind, e.size, base, front.buf, at + fields[last].offset,
              a + fields[last].offset, depth);
            front.status == Good ==> CopyFields(types, remote, fields, base, buf, at, a, depth) == next
  {
  }

  lemma {:induction false} LastFieldReady(types: seq<TsType>, size: nat, fields: seq<Field>, base: nat, buf: Buf,
                                          mid: Buf, at: nat, e: Element)
    requires fields != [] && FieldsLaid(types, size, fields) && Resolve(types, fields[|fields| - 1].typeName) == Okay(e)
    requires Ready(base, buf, at, size) && Zeroed(mid) && buf.size <= mid.size && |mid.mem| == |buf.mem|
    ensures Ready(base, mid, at + fields[|fields| - 1].offset, Extent(types, e.kind))
    ensures FieldsLaid(types, size, fields[..|fields| - 1])
  {
  }

  lemma {:induction false} NoFieldsPreserved(types: seq<TsType>, remote: Mem, size: nat, fields: seq<Field>, base: nat,
                                             buf: Buf, at: nat, a: nat, depth: nat)
    requires Ready(base, buf, at, size) && fields == []
    ensures CopyFields(types, remote, fields, base, buf, at, a, depth) == Copied(Good, buf)
    ensures WalkFields(types, remote, fields, a, depth) == Some([])
    ensures FieldsPreserved(types, size, fields, base, buf, buf, at, depth, [])
  {
  }

  lemma {:induction false} LastFieldResolves(types: seq<TsType>, m: Mem, fields: seq<Field>, a: nat, depth: nat)
    requires fields != [] && WalkFields(types, m, fields, a, depth).Some?
    ensures Resolve(types, fields[|fields| - 1].typeName).Okay?
  {
  }

  lemma {:induction false} FieldsPreservedSizes(types: seq<TsType>, size: nat, fields: seq<Field>, base: nat, buf: Buf,
                                                buf': Buf, at: nat, depth: nat, vs: seq<Value>)
    requires |vs| == |fields| && FieldsPreserved(types, size, fields, base, buf, buf', at, depth, vs)
    ensures Zeroed(buf') && |buf'.mem| == |buf.mem| && buf'.size == buf.size + SpanFields(types, fields, vs)
  {
  }

  lemma {:induction false} CopyFieldsPreserves(types: seq<TsType>, remote: Mem, size: nat, fields: seq<Field>,
                                               base: nat, buf: Buf, at: nat, a: nat, depth: nat)
    requires Laid(types) && FieldsLaid(types, size, fields) && Ready(base, buf, at, size)
    requires WalkFields(types, remote, fields, a, depth).Some?
    requires buf.size + SpanFields(types, fields, WalkFields(types, remote, fields, a, depth).value) <= |buf.mem|
    ensures var r := CopyFields(types, remote, fields, base, buf, at, a, depth);
            r.status == Good && FieldsPreserved(types, size, fields, base, buf, r.buf, at, depth,
                WalkFields(types, remote, fields, a, depth).value)
    decreases depth, 2, |fields|
  {
    hide DeepCopy.Walk, DeepCopy.WalkFields, DeepCopy.Copy, DeepCopy.CopyFields, DeepCopy.Span, DeepCopy.SpanFields,
      DeepCopy.Image, Window, Range,
      Zeroed, Framed, Laid, KindLaid, TypeTable.Resolve, TypeTable.SizeOf, Extent, FieldsLaid, Ready,
          FieldsPreserved, Preserved;
    if fields == [] {
      NoFieldsPreserved(types, remote, size, fields, base, buf, at, a, depth);
    } else {
      var last := |fields| - 1;
      LastFieldResolves(types, remote, fields, a, depth);
      var vs := WalkFields(types, remote, fields, a, depth).value;
      var e, o := Resolve(types, fields[last].typeName).value, fields[last].offset;
      UnfoldFields(types, remote, fields, base, buf, at, a, depth, e);
      ResolvedLaid(types, fields[last].typeName);
      ReadyZeroed(base, buf, at, size);
      LastFieldReady(types, size, fields, base, buf, buf, at, e);
      CopyFieldsPreserves(types, remote, size, fields[..last], base, buf, at, a, depth);
      var mid := CopyFields(types, remote, fields[..last], base, buf, at, a, depth).buf;
      FieldsPreservedSizes(types, size, fields[..last], base, buf, mid, at, depth, vs[..last]);
      LastFieldReady(types, size, fields, base, buf, mid, at, e);
      CopyPreserves(types, remote, e.kind, e.size, base, mid, at + o, a + o, depth);
      var buf' := Copy(types, remote, e.kind, e.size, base, mid, at + o, a + o, depth).buf;
      FieldsStep(types, size, fields, base, buf, mid, buf', at, depth, e, vs);
    }
  }

  lemma {:induction false} ReadyZeroed(base: nat, buf: Buf, at: nat, n: nat)
    requires Ready(base, buf, at, n)
    ensures Zeroed(buf) && at + n <= buf.size
  {
  }

  // ---------- gh_ts_retrievet ----------

  /** The whole buffer as local memory. */
  ghost function Local(base: nat, buf: Buf): Mem {
    Window(base, buf.mem, Range(base, base + |buf.mem|))
  }

  lemma {:induction false} WalkableSize(types: seq<TsType>, m: Mem, k: Kind, a: nat, depth: nat)
    requires Walk(types, m, k, a, depth).Some? && !k.ArrayPointer?
    ensures SizeOf(types, k) == Okay(Extent(types, k))
  {
  }

  lemma {:induction false} RetrieveReady(base: nat, buf: Buf, n: nat)
    requires base > 0 && base + |buf.mem| < WORD_LIMIT && Zeroed(buf) && buf.size + n <= |buf.mem|
    ensures Ready(base, buf.(size := buf.size + n), buf.size, n)
  {
  }

  lemma {:induction false} LocalWalks(types: seq<TsType>, k: Kind, base: nat, buf: Buf, buf': Buf, at: nat, depth: nat,
                                      v: Value)
    requires Preserved(types, k, base, buf, buf', at, depth, v)
    ensures |buf'.mem| == |buf.mem| && Walk(types, Local(base, buf'), k, base + at, depth) == Some(Image(v))
    ensures forall i | 0 <= i < buf.size && i < |buf.mem| && !(at <= i < at + Extent(types, k)) ::
            buf'.mem[i] == buf.mem[i]
  {
    hide DeepCopy.Walk, DeepCopy.Image;
    var footprint := Footprint(base, buf, buf', at, Extent(types, k));
    var window := Window(base, buf'.mem, footprint);
    assert SubMem(window, Local(base, buf'));
    WalkMono(types, window, Local(base, buf'), k, base + at, depth);
  }

  /** The value is in the buffer, at the place the buffer had grown to. */
  lemma {:induction false} RetrieveCopies(types: seq<TsType>, remote: Mem, k: Kind, base: nat, buf: Buf, a: nat,
                                          depth: nat)
    requires Laid(types) && KindLaid(types, k) && !k.ArrayPointer?
    requires base > 0 && base + |buf.mem| < WORD_LIMIT && Zeroed(buf)
    requires Walk(types, remote, k, a, depth).Some?
    requires buf.size + Extent(types, k) + Span(types, k, Walk(types, remote, k, a, depth).value) <= |buf.mem|
    ensures var r := Retrieve(types, remote, k, base, buf, a, depth);
            var v := Walk(types, remote, k, a, depth).value;
            && r.status == Good && |r.buf.mem| == |buf.mem|
            && Walk(types, Local(base, r.buf), k, base + buf.size, depth) == Some(Image(v))
            && (Walk(types, Local(base, r.buf), k, base + buf.size, depth) == Some(v) <==> Complete(v))
            && (r.pointer == base + buf.size <==> buf.size == 0)
            && (forall i | 0 <= i < buf.size :: r.buf.mem[i] == buf.mem[i])
  {
    hide DeepCopy.Walk, DeepCopy.Copy, DeepCopy.Image, DeepCopy.Span, Complete, Zeroed, Window, Laid,
      KindLaid, Preserved;
    var v := Walk(types, remote, k, a, depth).value;
    WalkableSize(types, remote, k, a, depth);
    var grown := buf.(size := buf.size + Extent(types, k));
    var r := Retrieve(types, remote, k, base, buf, a, depth);
    RetrieveReady(base, buf, Extent(types, k));
    CopyPreserves(types, remote, k, Extent(types, k), base, grown, buf.size, a, depth);
    LocalWalks(types, k, base, grown, r.buf, buf.size, depth, v);
    ImageIsIdentityIffComplete(v);
  }

  // ---------- a copy that succeeds copied something that can be walked ----------

  /** Elements of array pointers are raw bytes. */
  ghost predicate RawSlices(types: seq<TsType>, k: Kind) {
    k.ArrayPointer? && Resolve(types, k.element).Okay? ==> IsRaw(Resolve(types, k.element).value.kind)
  }

  lemma {:induction false} ItemsWalk(types: seq<TsType>, m: Mem, e: Element, a: nat, count: nat, depth: nat)
    requires IsRaw(e.kind) && SizeOf(types, e.kind) == Okay(e.size) && Has(m, a, Total(e.size, count))
    ensures WalkItems(types, m, e, a, count, depth).Some?
    decreases count
  {
    if count > 0 {
      ItemsWalk(types, m, e, a + e.size, count - 1, depth);
    }
  }

  lemma {:induction false} GoodMeansWalkable(types: seq<TsType>, remote: Mem, k: Kind, n: nat, base: nat, buf: Buf,
                                             at: nat, a: nat, depth: nat)
    requires RawSlices(types, k) && forall t | t in types :: RawSlices(types, t.kind)
    requires IsRaw(k) ==> SizeOf(types, k) == Okay(n)
    requires Copy(types, remote, k, n, base, buf, at, a, depth).status == Good
    ensures Walk(types, remote, k, a, depth).Some?
    ensures Copy(types, remote, k, n, base, buf, at, a, depth).buf.size ==
            buf.size + Span(types, k, Walk(types, remote, k, a, depth).value)
    ensures |Copy(types, remote, k, n, base, buf, at, a, depth).buf.mem| == |buf.mem|
    ensures buf.size <= |buf.mem| ==> Copy(types, remote, k, n, base, buf, at, a, depth).buf.size <= |buf.mem|
    decreases depth, 1, 0
  {
    hide DeepCopy.CopyFields, DeepCopy.WalkFields, DeepCopy.WalkItems, DeepCopy.SpanFields, Memory.ToWord,
      Memory.FromWord;
    match k
    case Struct(_, fields) => GoodFieldsWalkable(types, remote, fields, base, buf, at, a, depth - 1);
    case Pointer(element) =>
      if WordAt(remote, a) != 0 {
        var e := Resolve(types, element).value;
        ResolvedRawSlices(types, element);
        GoodMeansWalkable(types, remote, e.kind, e.size, base, buf.(size := buf.size + e.size), buf.size,
                          WordAt(remote, a), depth - 1);
      }
    case ArrayPointer(element) =>
      if WordAt(remote, a) != 0 && WordAt(remote, a + WORD_SIZE) != 0 {
        GoodItemsWalkable(types, remote, k, n, base, buf, at, a, depth);
      }
    case _ =>
  }

  lemma {:induction false} GoodItemsWalkable(types: seq<TsType>, remote: Mem, k: Kind, n: nat, base: nat, buf: Buf,
                                             at: nat, a: nat, depth: nat)
    requires k.ArrayPointer? && RawSlices(types, k) && Has(remote, a, ARRAY_POINTER_SIZE)
    requires WordAt(remote, a) != 0 && WordAt(remote, a + WORD_SIZE) != 0
    requires Copy(types, remote, k, n, base, buf, at, a, depth).status == Good
    ensures Walk(types, remote, k, a, depth).Some?
    ensures Copy(types, remote, k, n, base, buf, at, a, depth).buf.size ==
            buf.size + Span(types, k, Walk(types, remote, k, a, depth).value)
    ensures |Copy(types, remote, k, n, base, buf, at, a, depth).buf.mem| == |buf.mem|
    ensures Copy(types, remote, k, n, base, buf, at, a, depth).buf.size <= |buf.mem|
  {
    var e := Resolve(types, k.element).value;
    TotalIsProduct(e.size, WordAt(remote, a));
    var block := Total(e.size, WordAt(remote, a));
    UnfoldRaw(types, remote, e.kind, block, base, buf.(size := buf.size + block), buf.size,
              WordAt(remote, a + WORD_SIZE), depth - 1);
    ItemsWalk(types, remote, e, WordAt(remote, a + WORD_SIZE), WordAt(remote, a), depth - 1);
    FirstItem(types, remote, e, WordAt(remote, a + WORD_SIZE), WordAt(remote, a), depth - 1);
  }

  /** A struct loop that succeeds succeeded on every field. */
  lemma {:induction false} LastFieldGood(types: seq<TsType>, remote: Mem, fields: seq<Field>, base: nat, buf: Buf,
                                         at: nat, a: nat, depth: nat)
    requires fields != [] && CopyFields(types, remote, fields, base, buf, at, a, depth).status == Good
    ensures var last := |fields| - 1;
            var front := CopyFields(types, remote, fields[..last], base, buf, at, a, depth);
            var e := Resolve(types, fields[last].typeName);
            && front.status == Good && e.Okay?
            && CopyFields(types, remote, fields, base, buf, at, a, depth) ==
               Copy(types, remote, e.value.kind, e.value.size, base, front.buf, at + fields[last].offset,
                   a + fields[last].offset, depth)
  {
  }

  lemma {:induction false} ResolvedRawSlices(types: seq<TsType>, name: string)
    requires Resolve(types, name).Okay? && forall t | t in types :: RawSlices(types, t.kind)
    ensures RawSlices(types, Resolve(types, name).value.kind)
    ensures SizeOf(types, Resolve(types, name).value.kind) == Okay(Resolve(types, name).value.size)
  {
  }

  lemma {:induction false} SpanFieldsSnoc(types: seq<TsType>, fields: seq<Field>, front: seq<Value>, v: Value)
    requires fields != [] && |front| == |fields| - 1 && Resolve(types, fields[|fields| - 1].typeName).Okay?
    ensures SpanFields(types, fields, front + [v]) ==
            SpanFields(types, fields[..|fields| - 1], front) + Span(types,
                Resolve(types, fields[|fields| - 1].typeName).value.kind, v)
  {
  }

  lemma {:induction false} NoFieldsWalkable(types: seq<TsType>, remote: Mem, fields: seq<Field>, base: nat, buf: Buf,
                                            at: nat, a: nat, depth: nat)
    requires fields == []
    ensures CopyFields(types, remote, fields, base, buf, at, a, depth) == Copied(Good, buf)
    ensures WalkFields(types, remote, fields, a, depth) == Some([]) && SpanFields(types, fields, []) == 0
  {
  }

  lemma {:induction false} GoodFieldsWalkable(types: seq<TsType>, remote: Mem, fields: seq<Field>, base: nat, buf: Buf,
                                              at: nat, a: nat, depth: nat)
    requires forall t | t in types :: RawSlices(types, t.kind)
    requires CopyFields(types, remote, fields, base, buf, at, a, depth).status == Good
    ensures WalkFields(types, remote, fields, a, depth).Some?
    ensures var r := CopyFields(types, remote, fields, base, buf, at, a, depth).buf;
            && r.size == buf.size + SpanFields(types, fields, WalkFields(types, remote, fields, a, depth).value)
            && |r.mem| == |buf.mem| && (buf.size <= |buf.mem| ==> r.size <= |buf.mem|)
    decreases depth, 2, |fields|
  {
    hide DeepCopy.Walk, DeepCopy.WalkFields, DeepCopy.Copy, DeepCopy.CopyFields, DeepCopy.Span, DeepCopy.SpanFields,
      TypeTable.Resolve, TypeTable.SizeOf, RawSlices;
    if fields == [] {
      NoFieldsWalkable(types, remote, fields, base, buf, at, a, depth);
    } else {
      var last := |fields| - 1;
      LastFieldGood(types, remote, fields, base, buf, at, a, depth);
      GoodFieldsWalkable(types, remote, fields[..last], base, buf, at, a, depth);
      var mid := CopyFields(types, remote, fields[..last], base, buf, at, a, depth).buf;
      var e, o := Resolve(types, fields[last].typeName).value, fields[last].offset;
      ResolvedRawSlices(types, fields[last].typeName);
      GoodMeansWalkable(types, remote, e.kind, e.size, base, mid, at + o, a + o, depth);
      var front, v := WalkFields(types, remote, fields[..last], a, depth).value,
        Walk(types, remote, e.kind, a + o, depth).value;
      WalkFieldsSnoc(types, remote, fields, a, depth, front, v);
      SpanFieldsSnoc(types, fields, front, v);
    }
  }

  /** With raw array elements, retrieving succeeds exactly when the remote value can
      be walked and fits into the buffer. */
  lemma {:induction false} RetrieveSucceedsExactly(types: seq<TsType>, remote: Mem, k: Kind, base: nat, buf: Buf,
                                                   a: nat, depth: nat)
    requires Laid(types) && KindLaid(types, k) && !k.ArrayPointer?
    requires forall t | t in types :: RawSlices(types, t.kind)
    requires base > 0 && base + |buf.mem| < WORD_LIMIT && Zeroed(buf)
    ensures Retrieve(types, remote, k, base, buf, a, depth).status == Good <==>
            var v := Walk(types, remote, k, a, depth);
            v.Some? && buf.size + Extent(types, k) + Span(types, k, v.value) <= |buf.mem|
  {
    if Retrieve(types, remote, k, base, buf, a, depth).status == Good {
      var n := SizeOf(types, k).value;
      GoodMeansWalkable(types, remote, k, n, base, buf.(size := buf.size + n), buf.size, a, depth);
    } else if Walk(types, remote, k, a, depth).Some? {
      if buf.size + Extent(types, k) + Span(types, k, Walk(types, remote, k, a, depth).value) <= |buf.mem| {
        RetrieveCopies(types, remote, k, base, buf, a, depth);
      }
    }
  }
}
