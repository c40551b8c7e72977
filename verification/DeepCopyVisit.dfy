/** What a deep copy visits, and exactly when it succeeds (src/ghost/typesystem.c, lines 113-252). */
module DeepCopyVisit {
  import opened Basics
  import opened Memory
  import opened TypeTable
  import opened DeepCopy
  import opened DeepCopyProof

  /** What a copy needs of the buffer: how much it is to grow to, and where its last write ends; and
      how it goes, if there is that much room. */
  datatype Need = Need(size: nat, top: nat, end: Status)

  function Larger(m: nat, n: nat): nat {
    if m < n then n else m
  }

  predicate Fits(need: Need, capacity: nat) {
    need.size <= capacity && need.top <= capacity
  }

  /** What the copy of the value at `a` visits: it reads the whole block that an array pointer leads
      to if the elements are raw, and otherwise visits the first element only. It neither knows the
      contents of the buffer nor its capacity. It ends at the first thing that cannot be read, type
      that is missing or invalid, or place where the recursion is too deep. */
  ghost function Visit(types: seq<TsType>, m: Mem, k: Kind, n: nat, size: nat, at: nat, a: nat, depth: nat): Need
    decreases depth, 1, 0
  {
    match k
    case Invalid => Need(size, 0, InvalidType)
    case Struct(_, fields) =>
      if depth == 0 then Need(size, 0, TooDeep) else VisitFields(types, m, fields, size, at, a, depth - 1)
    case Pointer(element) =>
      if !Has(m, a, POINTER_SIZE) then Need(size, 0, ReadFailed)
      else VisitTarget(types, m, element, WordAt(m, a), 1, size, at + POINTER_SIZE, depth)
    case ArrayPointer(element) =>
      if !Has(m, a, ARRAY_POINTER_SIZE) then Need(size, 0, ReadFailed)
      else VisitTarget(types, m, element, WordAt(m, a + WORD_SIZE), WordAt(m, a), size, at + ARRAY_POINTER_SIZE, depth)
    case _ => if Has(m, a, n) then Need(size, at + n, Good) else Need(size, 0, ReadFailed)
  }

  /** The block of `count` elements at `p`, for a slot that ends at `end`. */
  ghost function VisitTarget(types: seq<TsType>, m: Mem, element: string, p: nat, count: nat, size: nat, end: nat,
                             depth: nat): Need
    decreases depth, 0, 0
  {
    if p == 0 || count == 0 then Need(size, end, Good)
    else
      var e := Resolve(types, element);
      if e.Fail? then Need(size, 0, e.error)
      else
        var block := e.value.size * count;
        if depth == 0 then Need(size + block, 0, TooDeep)
        else
          var need := Visit(types, m, e.value.kind, block, size + block, size, p, depth - 1);
          if need.end != Good then need else need.(top := Larger(need.top, end))
  }

  ghost function VisitFields(types: seq<TsType>, m: Mem, fields: seq<Field>, size: nat, at: nat, a: nat,
                             depth: nat): Need
    decreases depth, 2, |fields|
  {
    if fields == [] then Need(size, 0, Good)
    else
      var last := |fields| - 1;
      var front := VisitFields(types, m, fields[..last], size, at, a, depth);
      var e := Resolve(types, fields[last].typeName);
      if front.end != Good then front
      else if e.Fail? then front.(end := e.error)
      else
        var o := fields[last].offset;
        var need := Visit(types, m, e.value.kind, e.value.size, front.size, at + o, a + o, depth);
        need.(top := Larger(front.top, need.top))
  }

  lemma {:induction false} VisitGrows(types: seq<TsType>, m: Mem, k: Kind, n: nat, size: nat, at: nat, a: nat,
                                      depth: nat)
    ensures Visit(types, m, k, n, size, at, a, depth).size >= size
    decreases depth, 1, 0
  {
    hide VisitTarget, VisitFields, WordAt;
    match k
    case Struct(_, fields) => if depth > 0 { VisitFieldsGrows(types, m, fields, size, at, a, depth - 1); }
    case Pointer(element) =>
      if Has(m, a, POINTER_SIZE) {
        VisitTargetGrows(types, m, element, WordAt(m, a), 1, size, at + POINTER_SIZE, depth);
      }
    case ArrayPointer(element) =>
      if Has(m, a, ARRAY_POINTER_SIZE) {
        var p, count := WordAt(m, a + WORD_SIZE), WordAt(m, a);
        VisitTargetGrows(types, m, element, p, count, size, at + ARRAY_POINTER_SIZE, depth);
      }
    case _ =>
  }

  lemma {:induction false} VisitTargetGrows(types: seq<TsType>, m: Mem, element: string, p: nat, count: nat, size: nat,
                                            end: nat, depth: nat)
    ensures VisitTarget(types, m, element, p, count, size, end, depth).size >= size
    decreases depth, 0, 0
  {
    var e := Resolve(types, element);
    if p != 0 && count != 0 && e.Okay? && depth > 0 {
      var block := e.value.size * count;
      VisitGrows(types, m, e.value.kind, block, size + block, size, p, depth - 1);
    }
  }

  lemma {:induction false} VisitFieldsGrows(types: seq<TsType>, m: Mem, fields: seq<Field>, size: nat, at: nat, a: nat,
                                            depth: nat)
    ensures VisitFields(types, m, fields, size, at, a, depth).size >= size
    decreases depth, 2, |fields|
  {
    if fields != [] {
      var last := |fields| - 1;
      var e, o := Resolve(types, fields[last].typeName), fields[last].offset;
      var front := VisitFields(types, m, fields[..last], size, at, a, depth);
      VisitFieldsGrows(types, m, fields[..last], size, at, a, depth);
      if front.end == Good && e.Okay? {
        VisitGrows(types, m, e.value.kind, e.value.size, front.size, at + o, a + o, depth);
      }
    }
  }

  /** With that much room the copy goes as said; with less, it fails for lack of room. */
  ghost predicate AsNeeded(r: Copied, need: Need, capacity: nat) {
    && |r.buf.mem| == capacity
    && (Fits(need, capacity) ==> r.status == need.end)
    && (!Fits(need, capacity) ==> NoRoom(r.status, need, capacity))
    && (r.status == Good ==> r.buf.size == need.size)
  }

  /** The error when there is less room: the buffer cannot grow, or what is written passes its end. */
  ghost predicate NoRoom(status: Status, need: Need, capacity: nat) {
    || (status == MaxCapacity && need.size > capacity)
    || (status == Fault && need.top > capacity)
  }

  /** For every type table: how the copy ends is given by what it visits and the room for it. */
  lemma {:induction false} CopySucceedsIff(types: seq<TsType>, remote: Mem, k: Kind, n: nat, base: nat, buf: Buf,
                                           at: nat, a: nat, depth: nat)
    requires buf.size <= |buf.mem|
    ensures AsNeeded(Copy(types, remote, k, n, base, buf, at, a, depth),
                     Visit(types, remote, k, n, buf.size, at, a, depth), |buf.mem|)
    decreases depth, 1, 0
  {
    hide VisitTarget, VisitFields, DeepCopy.CopyFields, Memory.ToWord, Memory.FromWord, SizeOf, Memory.Splice;
    match k
    case Struct(_, fields) =>
      if depth > 0 {
        CopyFieldsSucceedIff(types, remote, fields, base, buf, at, a, depth - 1);
      }
    case Pointer(_) => CopyPointerSucceedsIff(types, remote, k, n, base, buf, at, a, depth);
    case ArrayPointer(_) => CopyArrayPointerSucceedsIff(types, remote, k, n, base, buf, at, a, depth);
    case _ =>
  }

  lemma {:induction false} CopyPointerSucceedsIff(types: seq<TsType>, remote: Mem, k: Kind, n: nat, base: nat, buf: Buf,
                                                  at: nat, a: nat, depth: nat)
    requires k.Pointer? && buf.size <= |buf.mem|
    ensures AsNeeded(Copy(types, remote, k, n, base, buf, at, a, depth),
                     Visit(types, remote, k, n, buf.size, at, a, depth), |buf.mem|)
    decreases depth, 0, 1
  {
    hide VisitFields, DeepCopy.CopyFields, WordAt, WordBytes, Resolve, Memory.Splice;
    if Has(remote, a, POINTER_SIZE) && WordAt(remote, a) != 0 {
      BlockSucceedsIff(types, remote, k.element, WordAt(remote, a), 1, base, buf, depth);
    }
  }

  lemma {:induction false} CopyArrayPointerSucceedsIff(types: seq<TsType>, remote: Mem, k: Kind, n: nat, base: nat,
                                                       buf: Buf, at: nat, a: nat, depth: nat)
    requires k.ArrayPointer? && buf.size <= |buf.mem|
    ensures AsNeeded(Copy(types, remote, k, n, base, buf, at, a, depth),
                     Visit(types, remote, k, n, buf.size, at, a, depth), |buf.mem|)
    decreases depth, 0, 1
  {
    hide VisitFields, DeepCopy.CopyFields, WordAt, WordBytes, Resolve, Memory.Splice;
    if Has(remote, a, ARRAY_POINTER_SIZE) && WordAt(remote, a) != 0 && WordAt(remote, a + WORD_SIZE) != 0 {
      BlockSucceedsIff(types, remote, k.element, WordAt(remote, a + WORD_SIZE), WordAt(remote, a), base, buf, depth);
    }
  }

  lemma {:induction false} BlockSucceedsIff(types: seq<TsType>, remote: Mem, element: string, p: nat, count: nat,
                                            base: nat, buf: Buf, depth: nat)
    requires buf.size <= |buf.mem|
    ensures var e := Resolve(types, element);
            e.Okay? && depth > 0 ==>
              var block := e.value.size * count;
              var need := Visit(types, remote, e.value.kind, block, buf.size + block, buf.size, p, depth - 1);
              && need.size >= buf.size + block
              && (buf.size + block <= |buf.mem| ==>
                    var grown := buf.(size := buf.size + block);
                    AsNeeded(Copy(types, remote, e.value.kind, block, base, grown, buf.size, p, depth - 1), need,
                             |buf.mem|))
    decreases depth, 0, 0
  {
    var e := Resolve(types, element);
    if e.Okay? && depth > 0 {
      var block := e.value.size * count;
      VisitGrows(types, remote, e.value.kind, block, buf.size + block, buf.size, p, depth - 1);
      if buf.size + block <= |buf.mem| {
        CopySucceedsIff(types, remote, e.value.kind, block, base, buf.(size := buf.size + block), buf.size, p,
                        depth - 1);
      }
    }
  }

  lemma {:induction false} CopyFieldsSucceedIff(types: seq<TsType>, remote: Mem, fields: seq<Field>, base: nat,
                                                buf: Buf, at: nat, a: nat, depth: nat)
    requires buf.size <= |buf.mem|
    ensures AsNeeded(CopyFields(types, remote, fields, base, buf, at, a, depth),
                     VisitFields(types, remote, fields, buf.size, at, a, depth), |buf.mem|)
    decreases depth, 2, |fields|
  {
    hide DeepCopy.Copy, Visit, Resolve;
    if fields != [] {
      var last := |fields| - 1;
      var e, o := Resolve(types, fields[last].typeName), fields[last].offset;
      var front, need := CopyFields(types, remote, fields[..last], base, buf, at, a, depth),
        VisitFields(types, remote, fields[..last], buf.size, at, a, depth);
      CopyFieldsSucceedIff(types, remote, fields[..last], base, buf, at, a, depth);
      if need.end == Good && e.Okay? {
        VisitGrows(types, remote, e.value.kind, e.value.size, need.size, at + o, a + o, depth);
        if front.status == Good {
          CopySucceedsIff(types, remote, e.value.kind, e.value.size, base, front.buf, at + o, a + o, depth);
        }
      }
    }
  }

  /** For every type table, and every type that has a size: retrieving succeeds exactly when all
      that is visited is there, and fits; and otherwise fails with the first error that the visit
      meets, or for lack of room before, and hands out no pointer. */
  lemma {:induction false} RetrieveSucceedsIff(types: seq<TsType>, remote: Mem, k: Kind, base: nat, buf: Buf, a: nat,
                                               depth: nat)
    ensures var n, r := SizeOf(types, k), Retrieve(types, remote, k, base, buf, a, depth);
            var status := r.status;
            && r.pointer == (if status == Good then base else 0)
            && if n.Fail? then status == n.error
            else
              var need := Visit(types, remote, k, n.value, buf.size + n.value, buf.size, a, depth);
              && (status == Good <==> need.end == Good && Fits(need, |buf.mem|))
              && (Fits(need, |buf.mem|) ==> status == need.end)
              && (!Fits(need, |buf.mem|) ==> NoRoom(status, need, |buf.mem|))
  {
    var n := SizeOf(types, k);
    if n.Okay? {
      VisitGrows(types, remote, k, n.value, buf.size + n.value, buf.size, a, depth);
      if buf.size + n.value <= |buf.mem| {
        CopySucceedsIff(types, remote, k, n.value, base, buf.(size := buf.size + n.value), buf.size, a, depth);
      }
    }
  }

  // ---------- what can be walked is visited ----------

  /** Whatever can be walked to the end can be visited, and what it takes is known. */
  lemma {:induction false} WalkedIsVisited(types: seq<TsType>, m: Mem, k: Kind, n: nat, size: nat, at: nat, a: nat,
                                           depth: nat)
    requires Walk(types, m, k, a, depth).Some? && (IsRaw(k) ==> Has(m, a, n))
    ensures var need := Visit(types, m, k, n, size, at, a, depth);
            need.end == Good && need.size == size + Span(types, k, Walk(types, m, k, a, depth).value)
    decreases depth, 1, 0
  {
    hide DeepCopy.WalkItems, DeepCopy.WalkFields, DeepCopy.SpanFields, VisitFields, SizeOf, WordAt;
    match k
    case Struct(_, fields) => WalkedFieldsAreVisited(types, m, fields, size, at, a, depth - 1);
    case Pointer(element) =>
      if WordAt(m, a) != 0 {
        var e := Resolve(types, element).value;
        RawIsThere(types, m, element, WordAt(m, a), depth - 1);
        WalkedIsVisited(types, m, e.kind, e.size, size + e.size, size, WordAt(m, a), depth - 1);
      }
    case ArrayPointer(element) =>
      if WordAt(m, a) != 0 && WordAt(m, a + WORD_SIZE) != 0 {
        WalkedItemsAreVisited(types, m, k, n, size, at, a, depth);
      }
    case _ =>
  }

  lemma {:induction false} WalkedItemsAreVisited(types: seq<TsType>, m: Mem, k: Kind, n: nat, size: nat, at: nat,
                                                 a: nat, depth: nat)
    requires k.ArrayPointer? && Walk(types, m, k, a, depth).Some? && Has(m, a, ARRAY_POINTER_SIZE)
    requires WordAt(m, a) != 0 && WordAt(m, a + WORD_SIZE) != 0
    ensures var need := Visit(types, m, k, n, size, at, a, depth);
            need.end == Good && need.size == size + Span(types, k, Walk(types, m, k, a, depth).value)
    decreases depth, 0, 0
  {
    var e, count, p := Resolve(types, k.element).value, WordAt(m, a), WordAt(m, a + WORD_SIZE);
    FirstItem(types, m, e, p, count, depth - 1);
    TotalIsProduct(e.size, count);
    if IsRaw(e.kind) {
      RawIsThere(types, m, k.element, p, depth - 1);
      RawItemsReadable(types, m, e, p, count, depth - 1);
    }
    hide DeepCopy.WalkItems, Resolve, SizeOf, WordAt, VisitFields, DeepCopy.SpanFields, DeepCopy.WalkFields;
    WalkedIsVisited(types, m, e.kind, e.size * count, size + e.size * count, size, p, depth - 1);
  }

  lemma {:induction false} RawIsThere(types: seq<TsType>, m: Mem, name: string, a: nat, depth: nat)
    requires Resolve(types, name).Okay? && Walk(types, m, Resolve(types, name).value.kind, a, depth).Some?
    ensures var e := Resolve(types, name).value;
            SizeOf(types, e.kind) == Okay(e.size) && (IsRaw(e.kind) ==> Has(m, a, e.size))
  {
  }

  lemma {:induction false} WalkedFieldsAreVisited(types: seq<TsType>, m: Mem, fields: seq<Field>, size: nat, at: nat,
                                                  a: nat, depth: nat)
    requires WalkFields(types, m, fields, a, depth).Some?
    ensures var need := VisitFields(types, m, fields, size, at, a, depth);
            need.end == Good && need.size == size + SpanFields(types, fields,
                WalkFields(types, m, fields, a, depth).value)
    decreases depth, 2, |fields|
  {
    hide DeepCopy.Walk, DeepCopy.Span, DeepCopy.SpanFields, Resolve, SizeOf, Visit;
    if fields == [] {
      NoFieldsSpan(types);
    } else {
      var last := |fields| - 1;
      WalkFieldsUnfold(types, m, fields, a, depth);
      hide DeepCopy.WalkFields;
      var e, o := Resolve(types, fields[last].typeName).value, fields[last].offset;
      var vs := WalkFields(types, m, fields[..last], a, depth).value;
      WalkedFieldsAreVisited(types, m, fields[..last], size, at, a, depth);
      RawIsThere(types, m, fields[last].typeName, a + o, depth);
      WalkedIsVisited(types, m, e.kind, e.size, size + SpanFields(types, fields[..last], vs), at + o, a + o, depth);
      SpanFieldsSnoc(types, fields, vs, Walk(types, m, e.kind, a + o, depth).value);
    }
  }

  lemma {:induction false} NoFieldsSpan(types: seq<TsType>)
    ensures SpanFields(types, [], []) == 0
  {
  }
}
