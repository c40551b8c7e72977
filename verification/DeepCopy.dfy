/** Deep copy of a typed object graph out of foreign memory (typesystem.c, lines 113-252). */
module DeepCopy {
  import opened Basics
  import opened Memory
  import opened TypeTable

  // ---------- what the copy walks over ----------

  /** What the copy finds at a typed piece of memory: it follows pointers, and takes
      primitives, static arrays and tagged unions for plain bytes. */
  datatype Value =
    | Raw(bytes: seq<Byte>)
    | Record(fields: seq<Value>)
    | Null
    | Ref(target: Value)
    | Slice(items: seq<Value>)

  ghost function Walk(types: seq<TsType>, m: Mem, k: Kind, a: nat, depth: nat): Option<Value>
    decreases depth, 1, 0
  {
    match k
    case Invalid => None
    case Struct(_, fields) =>
      if depth == 0 then None
      else
        var vs := WalkFields(types, m, fields, a, depth - 1);
        if vs.None? then None else Some(Record(vs.value))
    case Pointer(element) =>
      if !Has(m, a, POINTER_SIZE) then None
      else if WordAt(m, a) == 0 then Some(Null)
      else if depth == 0 then None
      else
        var e := Resolve(types, element);
        if e.Fail? then None
        else
          var v := Walk(types, m, e.value.kind, WordAt(m, a), depth - 1);
          if v.None? then None else Some(Ref(v.value))
    case ArrayPointer(element) =>
      if !Has(m, a, ARRAY_POINTER_SIZE) then None
      else if WordAt(m, a) == 0 || WordAt(m, a + WORD_SIZE) == 0 then Some(Slice([]))
      else if depth == 0 then None
      else
        var e := Resolve(types, element);
        if e.Fail? then None
        else
          var vs := WalkItems(types, m, e.value, WordAt(m, a + WORD_SIZE), WordAt(m, a), depth - 1);
          if vs.None? then None else Some(Slice(vs.value))
    case _ =>
      var s := SizeOf(types, k);
      if s.Fail? || !Has(m, a, s.value) then None else Some(Raw(Bytes(m, a, s.value)))
  }

  ghost function WalkFields(types: seq<TsType>, m: Mem, fields: seq<Field>, a: nat, depth: nat): (r: Option<seq<Value>>)
    ensures r.Some? ==> |r.value| == |fields|
    decreases depth, 2, |fields|
  {
    if fields == [] then Some([])
    else
      var last := |fields| - 1;
      var front := WalkFields(types, m, fields[..last], a, depth);
      var e := Resolve(types, fields[last].typeName);
      if front.None? || e.Fail? then None
      else
        var v := Walk(types, m, e.value.kind, a + fields[last].offset, depth);
        if v.None? then None else Some(front.value + [v.value])
  }

  ghost function WalkItems(types: seq<TsType>, m: Mem, e: Element, a: nat, count: nat,
                           depth: nat): (r: Option<seq<Value>>)
    ensures r.Some? ==> |r.value| == count
    decreases depth, 2, count
  {
    if count == 0 then Some([])
    else
      var v := Walk(types, m, e.kind, a, depth);
      var rest := WalkItems(types, m, e, a + e.size, count - 1, depth);
      if v.None? || rest.None? then None else Some([v.value] + rest.value)
  }

  // ---------- what a copy of a value looks like ----------

  /** The value that memory full of zeros has where `v` was. */
  ghost function Blank(v: Value): Value {
    match v
    case Raw(bytes) => Raw(seq(|bytes|, _ => 0))
    case Record(fields) => Record(Blanks(fields))
    case Null => Null
    case Ref(_) => Null
    case Slice(_) => Slice([])
  }

  ghost function Blanks(vs: seq<Value>): (r: seq<Value>)
    ensures |r| == |vs|
    ensures forall i | 0 <= i < |vs| :: r[i] == Blank(vs[i])
  {
    seq(|vs|, i requires 0 <= i < |vs| => Blank(vs[i]))
  }

  /** The value the copy of `v` has: everything is kept, but an array
      pointer to elements that are not raw bytes keeps its first element only. */
  ghost function Image(v: Value): Value {
    match v
    case Raw(_) => v
    case Record(fields) => Record(Images(fields))
    case Null => Null
    case Ref(target) => Ref(Image(target))
    case Slice(items) =>
      if items == [] || items[0].Raw? then v
      else Slice([Image(items[0])] + Blanks(items[1..]))
  }

  ghost function Images(vs: seq<Value>): (r: seq<Value>)
    ensures |r| == |vs|
    ensures forall i | 0 <= i < |vs| :: r[i] == Image(vs[i])
  {
    seq(|vs|, i requires 0 <= i < |vs| => Image(vs[i]))
  }

  /** No array pointer loses an element: behind the first one they are all blank. */
  ghost predicate Complete(v: Value) {
    match v
    case Raw(_) => true
    case Record(fields) => forall f | f in fields :: Complete(f)
    case Null => true
    case Ref(target) => Complete(target)
    case Slice(items) =>
      items == [] || items[0].Raw? ||
      (Complete(items[0]) && forall i | 1 <= i < |items| :: items[i] == Blank(items[i]))
  }

  lemma {:induction false} ImageIsIdentityIffComplete(v: Value)
    ensures Image(v) == v <==> Complete(v)
  {
    match v
    case Raw(_) =>
    case Null =>
    case Ref(target) => ImageIsIdentityIffComplete(target);
    case Record(fields) =>
      forall f | f in fields ensures Image(f) == f <==> Complete(f) { ImageIsIdentityIffComplete(f); }
      SameImages(fields);
    case Slice(items) =>
      if items != [] && !items[0].Raw? {
        ImageIsIdentityIffComplete(items[0]);
        SameBlanks(items);
      }
  }

  lemma {:induction false} SameImages(fields: seq<Value>)
    ensures Images(fields) == fields <==> forall f | f in fields :: Image(f) == f
  {
    hide Image;
    if Images(fields) == fields {
      forall i | 0 <= i < |fields| ensures Image(fields[i]) == fields[i] {
        assert Images(fields)[i] == fields[i];
      }
    }
  }

  lemma {:induction false} SameBlanks(items: seq<Value>)
    requires items != []
    ensures [Image(items[0])] + Blanks(items[1..]) == items <==>
            Image(items[0]) == items[0] && forall i | 1 <= i < |items| :: items[i] == Blank(items[i])
  {
    hide Image, Blank;
    var image := [Image(items[0])] + Blanks(items[1..]);
    assert image[0] == Image(items[0]) && forall i | 1 <= i < |items| :: image[i] == Blank(items[i]);
  }

  /** `size * count`, one element at a time. */
  ghost function Total(size: nat, count: nat): nat {
    if count == 0 then 0 else size + Total(size, count - 1)
  }

  lemma {:induction false} TotalIsProduct(size: nat, count: nat)
    ensures Total(size, count) == size * count
  {
    if count != 0 {
      TotalIsProduct(size, count - 1);
    }
  }

  /** Bytes that copying `v`, of kind `k`, adds to the buffer. */
  ghost function Span(types: seq<TsType>, k: Kind, v: Value): nat
    decreases v
  {
    match v
    case Record(vs) => if k.Struct? && |vs| == |k.fields| then SpanFields(types, k.fields, vs) else 0
    case Ref(target) =>
      if !k.Pointer? || Resolve(types, k.element).Fail? then 0
      else
        var e := Resolve(types, k.element).value;
        e.size + Span(types, e.kind, target)
    case Slice(items) =>
      if items == [] || !k.ArrayPointer? || Resolve(types, k.element).Fail? then 0
      else
        var e := Resolve(types, k.element).value;
        Total(e.size, |items|) + Span(types, e.kind, items[0])
    case _ => 0
  }

  ghost function SpanFields(types: seq<TsType>, fields: seq<Field>, vs: seq<Value>): nat
    requires |fields| == |vs|
    decreases vs
  {
    if fields == [] then 0
    else
      var last := |fields| - 1;
      var e := Resolve(types, fields[last].typeName);
      SpanFields(types, fields[..last], vs[..last]) + if e.Fail? then 0 else Span(types, e.value.kind, vs[last])
  }

  // ---------- the copy ----------

  /** The byte buffer: `mem` is all its memory, the first `size` bytes are in use. */
  datatype Buf = Buf(mem: seq<Byte>, size: nat)

  datatype Copied = Copied(status: Status, buf: Buf)

  function Store(buf: Buf, at: nat, data: seq<Byte>): (r: Copied)
    ensures |r.buf.mem| == |buf.mem| && r.buf.size == buf.size
  {
    if at + |data| > |buf.mem| then Copied(Fault, buf)
    else Copied(Good, buf.(mem := Splice(buf.mem, at, data)))
  }

  function Fetch(remote: Mem, a: nat, n: nat, buf: Buf, at: nat): (r: Copied) {
    if !Has(remote, a, n) then Copied(ReadFailed, buf) else Store(buf, at, Bytes(remote, a, n))
  }

  /** `ts_retrieve`: copies the value of kind `k` at the remote address `a` to the
      buffer offset `at`, whose slot has `n` bytes. `base` is the buffer's address. */
  function Copy(types: seq<TsType>, remote: Mem, k: Kind, n: nat, base: nat, buf: Buf, at: nat, a: nat,
                depth: nat): Copied
    decreases depth, 1, 0
  {
    match k
    case Invalid => Copied(InvalidType, buf)
    case Struct(_, fields) =>
      if depth == 0 then Copied(TooDeep, buf)
      else CopyFields(types, remote, fields, base, buf, at, a, depth - 1)
    case Pointer(element) =>
      if !Has(remote, a, POINTER_SIZE) then Copied(ReadFailed, buf)
      else if WordAt(remote, a) == 0 then Store(buf, at, WordBytes(0))
      else
        var e := Resolve(types, element);
        if e.Fail? then Copied(e.error, buf)
        else if buf.size + e.value.size > |buf.mem| then Copied(MaxCapacity, buf)
        else if depth == 0 then Copied(TooDeep, buf.(size := buf.size + e.value.size))
        else
          var grown := buf.(size := buf.size + e.value.size);
          var r := Copy(types, remote, e.value.kind, e.value.size, base, grown, buf.size, WordAt(remote, a), depth - 1);
          if r.status != Good then r else Store(r.buf, at, WordBytes(base + buf.size))
    case ArrayPointer(element) =>
      if !Has(remote, a, ARRAY_POINTER_SIZE) then Copied(ReadFailed, buf)
      else
        var count, p := WordAt(remote, a), WordAt(remote, a + WORD_SIZE);
        if p == 0 || count == 0 then Store(buf, at, WordBytes(0) + WordBytes(0))
        else
          var e := Resolve(types, element);
          if e.Fail? then Copied(e.error, buf) else
          var n' := e.value.size * count;
          if buf.size + n' > |buf.mem| then Copied(MaxCapacity, buf)
          else if depth == 0 then Copied(TooDeep, buf.(size := buf.size + n'))
          else
            var r := Copy(types, remote, e.value.kind, n', base, buf.(size := buf.size + n'), buf.size, p, depth - 1);
            if r.status != Good then r else Store(r.buf, at, WordBytes(count) + WordBytes(base + buf.size))
    case _ => Fetch(remote, a, n, buf, at)
  }

  /** The struct loop of `ts_retrieve`, from the first field to the last. */
  function CopyFields(types: seq<TsType>, remote: Mem, fields: seq<Field>, base: nat, buf: Buf, at: nat, a: nat,
                      depth: nat): Copied
    decreases depth, 2, |fields|
  {
    if fields == [] then Copied(Good, buf)
    else
      var last := |fields| - 1;
      var front := CopyFields(types, remote, fields[..last], base, buf, at, a, depth);
      if front.status != Good then front else
      var e := Resolve(types, fields[last].typeName);
      if e.Fail? then Copied(e.error, front.buf)
      else Copy(types, remote, e.value.kind, e.value.size, base, front.buf, at + fields[last].offset,
          a + fields[last].offset, depth)
  }

  datatype Retrieved = Retrieved(status: Status, buf: Buf, pointer: nat)

  /** `gh_ts_retrievet`. The pointer handed out is the start of the buffer. */
  function Retrieve(types: seq<TsType>, remote: Mem, k: Kind, base: nat, buf: Buf, a: nat, depth: nat): Retrieved {
    var s := SizeOf(types, k);
    if s.Fail? then Retrieved(s.error, buf, 0)
    else if buf.size + s.value > |buf.mem| then Retrieved(MaxCapacity, buf, 0)
    else
      var r := Copy(types, remote, k, s.value, base, buf.(size := buf.size + s.value), buf.size, a, depth);
      Retrieved(r.status, r.buf, if r.status == Good then base else 0)
  }
}
