/** An array pointer is stored as sixteen bytes where `gh_ts_sizet` sets eight aside for it
    (src/ghost/typesystem.c, lines 88-90 and 222-225). */
module TightSlots {
  import opened Basics
  import opened Memory
  import opened TypeTable
  import opened DeepCopy
  import opened DeepCopyProof
  import opened DeepCopyMeaning

  /** What of the word `q` lands on `n` bytes. */
  ghost function Head(q: nat, n: nat): seq<Byte> {
    WordBytes(q)[..if n < WORD_SIZE then n else WORD_SIZE]
  }

  /** The `n` bytes at `p` start with the word `q`, as far as there is room for it. */
  ghost predicate StartsWith(m: Mem, p: nat, n: nat, q: nat)
    requires Has(m, p, n)
  {
    Head(q, n) <= Bytes(m, p, n)
  }

  /** The array pointer is empty, or its elements start with the address they are copied to. */
  ghost predicate Unharmed(types: seq<TsType>, m: Mem, k: Kind, a: nat, q: nat)
    requires k.ArrayPointer? && Has(m, a, ARRAY_POINTER_SIZE)
  {
    var count, p, e := WordAt(m, a), WordAt(m, a + WORD_SIZE), Resolve(types, k.element);
    count == 0 || p == 0 || (e.Okay? && Has(m, p, Total(e.value.size, count))
        && StartsWith(m, p, Total(e.value.size, count), q))
  }

  /** The elements at `q`, with their own address written over their start. */
  ghost predicate Overwritten(m: Mem, q: nat, m': Mem, p: nat, n: nat) {
    && Has(m, q, n) && Has(m', p, n)
    && Bytes(m, q, n) == Head(q, n) + Bytes(m', p, n)[|Head(q, n)|..]
  }

  lemma {:induction false} OverwrittenSame(m: Mem, q: nat, m': Mem, p: nat, n: nat)
    requires Overwritten(m, q, m', p, n)
    ensures Same(m', p, m, q, n) <==> StartsWith(m', p, n, q)
  {
    hide WordBytes;
    var head, bytes := Head(q, n), Bytes(m', p, n);
    assert (head + bytes[|head|..])[..|head|] == head;
    if StartsWith(m', p, n, q) {
      assert bytes == head + bytes[|head|..];
    }
  }

  /** Raw elements at two places are the same values exactly when they are the same bytes. */
  lemma {:induction false} RawItemsIff(types: seq<TsType>, m: Mem, m': Mem, e: Element, a: nat, a': nat, count: nat,
                                       depth: nat, ws: seq<Value>)
    requires IsRaw(e.kind) && SizeOf(types, e.kind) == Okay(e.size)
    requires WalkItems(types, m, e, a, count, depth) == Some(ws)
    ensures WalkItems(types, m', e, a', count, depth) == Some(ws) <==> Same(m, a, m', a', Total(e.size, count))
  {
    if Same(m, a, m', a', Total(e.size, count)) {
      assert SameBytes(m, a, m', a', Total(e.size, count)) by { SameIsSameBytes(m, a, m', a', Total(e.size, count)); }
      WalkRawItems(types, m, m', e, a, a', count, depth);
    } else if WalkItems(types, m', e, a', count, depth) == Some(ws) {
      RawItemsSame(types, m, m', e, a, a', count, depth, ws);
    }
  }

  lemma {:induction false} SameIsSameBytes(m: Mem, a: nat, m': Mem, a': nat, n: nat)
    requires Same(m, a, m', a', n)
    ensures SameBytes(m, a, m', a', n)
  {
    forall x | a' <= x < a' + n ensures m'[x] == m[x - a' + a] {
      assert Bytes(m', a', n)[x - a'] == Bytes(m, a, n)[x - a'];
    }
  }

  /** What a slot of eight bytes at `s` holds after an array pointer was copied to it, and
      `data` was stored further down. */
  lemma {:induction false} TightMemory(base: nat, buf: Buf, s: nat, count: nat, remote: Mem, p: nat, n: nat, at: nat,
                                       data: seq<Byte>)
    requires base + |buf.mem| < WORD_LIMIT && count < WORD_LIMIT && Has(remote, p, n)
    requires s + ARRAY_POINTER_SIZE <= |buf.mem| && s + WORD_SIZE + n <= |buf.mem| && at + |data| <= s
    ensures var q := base + s + WORD_SIZE;
            var done := Store(buf, s + WORD_SIZE, Bytes(remote, p, n));
            var stored := Store(done.buf, s, WordBytes(count) + WordBytes(q));
            var m := Local(base, Store(stored.buf, at, data).buf);
            && done.status == stored.status == Good
            && Has(m, base + s, ARRAY_POINTER_SIZE) && WordAt(m, base + s) == count && WordAt(m, q) == q
            && Overwritten(m, q, remote, p, n)
  {
    hide Memory.FromWord, Memory.ToWord, Window, Range, Memory.Splice, Head;
    var q := base + s + WORD_SIZE;
    var done := Store(buf, s + WORD_SIZE, Bytes(remote, p, n)).buf;
    var stored := Store(done, s, WordBytes(count) + WordBytes(q)).buf;
    var mem := Store(stored, at, data).buf.mem;
    SplicedIn(buf.mem, s + WORD_SIZE, Bytes(remote, p, n));
    StoredWords(stored.mem, done.mem, s, count, q);
    SplicedTail(stored.mem, at, data, s);
    TailPiece(mem, stored.mem, s, s, s + WORD_SIZE);
    TailPiece(mem, stored.mem, s, s + WORD_SIZE, s + ARRAY_POINTER_SIZE);
    TailPiece(mem, stored.mem, s, s + ARRAY_POINTER_SIZE, |mem|);
    TightWords(base, mem, s, count);
    TightElements(done.mem, mem, s, q, Bytes(remote, p, n));
    LocalBytes(base, mem, s + WORD_SIZE, n);
  }

  lemma {:induction false} SplicedIn(mem: seq<Byte>, at: nat, data: seq<Byte>)
    requires at + |data| <= |mem|
    ensures Splice(mem, at, data)[at..at + |data|] == data
  {
  }

  lemma {:induction false} SplicedTail(mem: seq<Byte>, at: nat, data: seq<Byte>, s: nat)
    requires at + |data| <= s <= |mem|
    ensures Splice(mem, at, data)[s..] == mem[s..]
  {
  }

  lemma {:induction false} TailPiece(mem: seq<Byte>, mem': seq<Byte>, s: nat, lo: nat, hi: nat)
    requires s <= lo <= hi <= |mem| == |mem'| && mem[s..] == mem'[s..]
    ensures mem[lo..hi] == mem'[lo..hi] && mem[lo..] == mem'[lo..]
  {
    assert mem[lo..] == mem[s..][lo - s..] && mem'[lo..] == mem'[s..][lo - s..];
    assert mem[lo..hi] == mem[lo..][..hi - lo] && mem'[lo..hi] == mem'[lo..][..hi - lo];
  }

  lemma {:induction false} StoredWords(mem: seq<Byte>, before: seq<Byte>, s: nat, count: nat, q: nat)
    requires s + ARRAY_POINTER_SIZE <= |before| && mem == Splice(before, s, WordBytes(count) + WordBytes(q))
    ensures mem[s..s + WORD_SIZE] == WordBytes(count) && mem[s + WORD_SIZE..s + ARRAY_POINTER_SIZE] == WordBytes(q)
    ensures mem[s + ARRAY_POINTER_SIZE..] == before[s + ARRAY_POINTER_SIZE..]
  {
    hide WordBytes;
  }

  lemma {:induction false} LocalBytes(base: nat, mem: seq<Byte>, s: nat, n: nat)
    requires s + n <= |mem|
    ensures var m := Window(base, mem, Range(base, base + |mem|));
            Has(m, base + s, n) && Bytes(m, base + s, n) == mem[s..s + n]
  {
    WindowBytes(base, mem, Range(base, base + |mem|), s, n);
  }

  lemma {:induction false} TightWords(base: nat, mem: seq<Byte>, s: nat, count: nat)
    requires s + ARRAY_POINTER_SIZE <= |mem| && count < WORD_LIMIT && base + |mem| < WORD_LIMIT
    requires mem[s..s + WORD_SIZE] == WordBytes(count)
    requires mem[s + WORD_SIZE..s + ARRAY_POINTER_SIZE] == WordBytes(base + s + WORD_SIZE)
    ensures var m := Window(base, mem, Range(base, base + |mem|));
            && Has(m, base + s, ARRAY_POINTER_SIZE) && WordAt(m, base + s) == count
            && WordAt(m, base + s + WORD_SIZE) == base + s + WORD_SIZE
  {
    hide Memory.FromWord, Memory.ToWord, Window, Range;
    LocalBytes(base, mem, s, ARRAY_POINTER_SIZE);
    LocalBytes(base, mem, s, WORD_SIZE);
    LocalBytes(base, mem, s + WORD_SIZE, WORD_SIZE);
    WordBytesRoundTrip(count);
    WordBytesRoundTrip(base + s + WORD_SIZE);
  }

  lemma {:induction false} TightElements(done: seq<Byte>, mem: seq<Byte>, s: nat, q: nat, bytes: seq<Byte>)
    requires |mem| == |done| && s + ARRAY_POINTER_SIZE <= |mem| && s + WORD_SIZE + |bytes| <= |mem|
    requires done[s + WORD_SIZE..s + WORD_SIZE + |bytes|] == bytes
    requires mem[s + WORD_SIZE..s + ARRAY_POINTER_SIZE] == WordBytes(q)
    requires mem[s + ARRAY_POINTER_SIZE..] == done[s + ARRAY_POINTER_SIZE..]
    ensures var n := |bytes|;
            mem[s + WORD_SIZE..s + WORD_SIZE + n] == Head(q, n) + bytes[|Head(q, n)|..]
  {
    hide WordBytes;
    var t, n := s + WORD_SIZE, |bytes|;
    forall i: nat | i < n ensures mem[t..t + n][i] == (Head(q, n) + bytes[|Head(q, n)|..])[i] {
      if i < WORD_SIZE {
        assert mem[t + i] == mem[t..s + ARRAY_POINTER_SIZE][i];
      } else {
        assert mem[t + i] == mem[s + ARRAY_POINTER_SIZE..][i - WORD_SIZE] == done[t + i];
        assert done[t + i] == done[t..t + n][i];
      }
    }
  }

  lemma {:induction false} EmptyTight(types: seq<TsType>, k: Kind, base: nat, buf: Buf, s: nat, at: nat,
                                      data: seq<Byte>, depth: nat)
    requires k.ArrayPointer? && s + ARRAY_POINTER_SIZE <= |buf.mem| && at + |data| <= s
    ensures var stored := Store(buf, s, WordBytes(0) + WordBytes(0));
            var final := Store(stored.buf, at, data);
            && stored.status == final.status == Good
            && Walk(types, Local(base, final.buf), k, base + s, depth) == Some(Slice([]))
  {
    hide Memory.ToWord, DeepCopy.Walk;
    ZeroWord(WORD_SIZE);
    var zeros := WordBytes(0) + WordBytes(0);
    assert zeros == seq(ARRAY_POINTER_SIZE, _ => 0);
    hide Memory.FromWord, Memory.Splice, Window, Range;
    var stored := Store(buf, s, zeros).buf;
    var mem := Store(stored, at, data).buf.mem;
    SplicedIn(buf.mem, s, zeros);
    SplicedTail(stored.mem, at, data, s);
    TailPiece(mem, stored.mem, s, s, s + ARRAY_POINTER_SIZE);
    LocalBytes(base, mem, s, ARRAY_POINTER_SIZE);
    var m := Local(base, Store(stored, at, data).buf);
    BytesAreZero(m, base + s, ARRAY_POINTER_SIZE);
    EmptyWalk(types, m, k, base + s, depth);
  }

  lemma {:induction false} EmptyWalk(types: seq<TsType>, m: Mem, k: Kind, a: nat, depth: nat)
    requires k.ArrayPointer? && ZeroAt(m, a, ARRAY_POINTER_SIZE)
    ensures Walk(types, m, k, a, depth) == Some(Slice([]))
  {
    ZeroWordAt(m, a);
  }

  /** Copying a non-empty array pointer with raw elements to the last eight bytes in use. */
  lemma {:induction false} TightUnfold(types: seq<TsType>, remote: Mem, k: Kind, n: nat, base: nat, buf: Buf, s: nat,
                                       a: nat, depth: nat, vs: seq<Value>)
    requires k.ArrayPointer? && RawSlices(types, k) && s + WORD_SIZE == buf.size
    requires Walk(types, remote, k, a, depth) == Some(Slice(vs)) && buf.size + Span(types, k, Slice(vs)) <= |buf.mem|
    requires Has(remote, a, ARRAY_POINTER_SIZE) && WordAt(remote, a) != 0 && WordAt(remote, a + WORD_SIZE) != 0
    ensures Resolve(types, k.element).Okay? && depth > 0
    ensures var e := Resolve(types, k.element).value;
            var count, p, q := WordAt(remote, a), WordAt(remote, a + WORD_SIZE), base + s + WORD_SIZE;
            var block := Total(e.size, count);
            && IsRaw(e.kind) && SizeOf(types, e.kind) == Okay(e.size)
            && WalkItems(types, remote, e, p, count, depth - 1) == Some(vs) && vs != []
            && Has(remote, p, block) && buf.size + block <= |buf.mem| && Span(types, k, Slice(vs)) == block
            && var done := Store(buf.(size := buf.size + block), s + WORD_SIZE, Bytes(remote, p, block));
               done.status == Good ==>
                 Copy(types, remote, k, n, base, buf, s, a, depth) ==
                     Store(done.buf, s, WordBytes(count) + WordBytes(q))
  {
    hide DeepCopy.Store;
    var e := Resolve(types, k.element).value;
    var count, p := WordAt(remote, a), WordAt(remote, a + WORD_SIZE);
    var block := Total(e.size, count);
    TotalIsProduct(e.size, count);
    RawItemsReadable(types, remote, e, p, count, depth - 1);
    FirstItem(types, remote, e, p, count, depth - 1);
    UnfoldRaw(types, remote, e.kind, block, base, buf.(size := buf.size + block), buf.size, p, depth - 1);
  }

  lemma {:induction false} HeaderedIff(types: seq<TsType>, m: Mem, remote: Mem, k: Kind, s: nat, a: nat, depth: nat,
                                       e: Element, vs: seq<Value>)
    requires k.ArrayPointer? && depth > 0 && Resolve(types, k.element) == Okay(e) && IsRaw(e.kind)
    requires SizeOf(types, e.kind) == Okay(e.size)
    requires Has(remote, a, ARRAY_POINTER_SIZE) && Has(m, s, ARRAY_POINTER_SIZE)
    requires WordAt(m, s) == WordAt(remote, a) != 0 && WordAt(remote, a + WORD_SIZE) != 0
    requires WordAt(m, s + WORD_SIZE) == s + WORD_SIZE
    requires WalkItems(types, remote, e, WordAt(remote, a + WORD_SIZE), WordAt(remote, a), depth - 1) == Some(vs)
    requires Overwritten(m, s + WORD_SIZE, remote, WordAt(remote, a + WORD_SIZE), Total(e.size, WordAt(remote, a)))
    ensures Walk(types, m, k, s, depth) == Some(Slice(vs)) <==> Unharmed(types, remote, k, a, s + WORD_SIZE)
  {
    hide DeepCopy.WalkItems, StartsWith, Same, Head, WordAt;
    var count, p := WordAt(remote, a), WordAt(remote, a + WORD_SIZE);
    var found := WalkItems(types, m, e, s + WORD_SIZE, count, depth - 1);
    assert Walk(types, m, k, s, depth) == if found.None? then None else Some(Slice(found.value));
    hide DeepCopy.Walk;
    RawItemsIff(types, remote, m, e, p, s + WORD_SIZE, count, depth - 1, vs);
    OverwrittenSame(m, s + WORD_SIZE, remote, p, Total(e.size, count));
  }

  /** An array pointer with raw elements, copied to the last eight bytes in use, comes out
      whole exactly when it is unharmed; what is stored further down does not matter. */
  lemma {:induction false} TightIff(types: seq<TsType>, remote: Mem, k: Kind, n: nat, base: nat, buf: Buf, s: nat,
                                    a: nat, depth: nat, vs: seq<Value>, at: nat, data: seq<Byte>)
    requires k.ArrayPointer? && RawSlices(types, k)
    requires base + |buf.mem| < WORD_LIMIT && s + WORD_SIZE == buf.size && s + ARRAY_POINTER_SIZE <= |buf.mem|
    requires Walk(types, remote, k, a, depth) == Some(Slice(vs)) && buf.size + Span(types, k, Slice(vs)) <= |buf.mem|
    requires at + |data| <= s
    ensures Has(remote, a, ARRAY_POINTER_SIZE)
    ensures var r := Copy(types, remote, k, n, base, buf, s, a, depth);
            var final := Store(r.buf, at, data);
            && r.status == final.status == Good && |r.buf.mem| == |buf.mem|
            && (Walk(types, Local(base, final.buf), k, base + s, depth) == Some(Slice(vs)) <==>
                Unharmed(types, remote, k, a, base + s + WORD_SIZE))
  {
    assert Has(remote, a, ARRAY_POINTER_SIZE);
    if WordAt(remote, a) == 0 || WordAt(remote, a + WORD_SIZE) == 0 {
      hide DeepCopy.Store, Local, Unharmed;
      EmptyTight(types, k, base, buf, s, at, data, depth);
      EmptyUnharmed(types, remote, k, a, base + s + WORD_SIZE);
    } else {
      FullTightIff(types, remote, k, n, base, buf, s, a, depth, vs, at, data);
    }
  }

  lemma {:induction false} FullTightIff(types: seq<TsType>, remote: Mem, k: Kind, n: nat, base: nat, buf: Buf, s: nat,
                                        a: nat, depth: nat, vs: seq<Value>, at: nat, data: seq<Byte>)
    requires k.ArrayPointer? && RawSlices(types, k)
    requires base + |buf.mem| < WORD_LIMIT && s + WORD_SIZE == buf.size && s + ARRAY_POINTER_SIZE <= |buf.mem|
    requires Walk(types, remote, k, a, depth) == Some(Slice(vs)) && buf.size + Span(types, k, Slice(vs)) <= |buf.mem|
    requires at + |data| <= s
    requires Has(remote, a, ARRAY_POINTER_SIZE) && WordAt(remote, a) != 0 && WordAt(remote, a + WORD_SIZE) != 0
    ensures var r := Copy(types, remote, k, n, base, buf, s, a, depth);
            var final := Store(r.buf, at, data);
            && r.status == final.status == Good && |r.buf.mem| == |buf.mem|
            && (Walk(types, Local(base, final.buf), k, base + s, depth) == Some(Slice(vs)) <==>
                Unharmed(types, remote, k, a, base + s + WORD_SIZE))
  {
    hide DeepCopy.Store, Local, Unharmed, Overwritten, DeepCopy.Copy, DeepCopy.Walk, DeepCopy.WalkItems, DeepCopy.Span,
      Resolve, SizeOf, WordAt, WordBytes, RawSlices;
    TightUnfold(types, remote, k, n, base, buf, s, a, depth, vs);
    var e := Resolve(types, k.element).value;
    var count, p := WordAt(remote, a), WordAt(remote, a + WORD_SIZE);
    WordAtBound(remote, a);
    var block := Total(e.size, count);
    TightMemory(base, buf.(size := buf.size + block), s, count, remote, p, block, at, data);
    var r := Copy(types, remote, k, n, base, buf, s, a, depth);
    StoreFits(r.buf, at, data);
    HeaderedIff(types, Local(base, Store(r.buf, at, data).buf), remote, k, base + s, a, depth, e, vs);
  }

  lemma {:induction false} EmptyUnharmed(types: seq<TsType>, m: Mem, k: Kind, a: nat, q: nat)
    requires k.ArrayPointer? && Has(m, a, ARRAY_POINTER_SIZE) && (WordAt(m, a) == 0 || WordAt(m, a + WORD_SIZE) == 0)
    ensures Unharmed(types, m, k, a, q)
  {
  }

  lemma {:induction false} StoreFits(buf: Buf, at: nat, data: seq<Byte>)
    requires at + |data| <= |buf.mem|
    ensures Store(buf, at, data).status == Good
  {
  }

  /** An array pointer that is retrieved on its own comes out whole exactly when it is
      empty, or its elements start with the address they are copied to. */
  lemma {:induction false} RetrieveArrayPointerIff(types: seq<TsType>, remote: Mem, k: Kind, base: nat, buf: Buf,
                                                   a: nat, depth: nat, vs: seq<Value>)
    requires k.ArrayPointer? && RawSlices(types, k)
    requires base + |buf.mem| < WORD_LIMIT && buf.size + ARRAY_POINTER_SIZE <= |buf.mem|
    requires Walk(types, remote, k, a, depth) == Some(Slice(vs))
    requires buf.size + POINTER_SIZE + Span(types, k, Slice(vs)) <= |buf.mem|
    ensures Has(remote, a, ARRAY_POINTER_SIZE)
    ensures var r := Retrieve(types, remote, k, base, buf, a, depth);
            && r.status == Good
            && (Walk(types, Local(base, r.buf), k, base + buf.size, depth) == Some(Slice(vs)) <==>
                Unharmed(types, remote, k, a, base + buf.size + POINTER_SIZE))
  {
    hide DeepCopy.Copy, DeepCopy.Walk, DeepCopy.Span, Unharmed, RawSlices, Local;
    var grown := buf.(size := buf.size + POINTER_SIZE);
    TightIff(types, remote, k, POINTER_SIZE, base, grown, buf.size, a, depth, vs, 0, []);
    var r := Copy(types, remote, k, POINTER_SIZE, base, grown, buf.size, a, depth).buf;
    assert Splice(r.mem, 0, []) == r.mem;
  }

  // ---------- elements that are not raw bytes ----------

  /** An empty array pointer that is retrieved on its own comes out empty: its slot, and the eight
      bytes behind, hold zeros. */
  lemma {:induction false} RetrieveEmptyArrayPointer(types: seq<TsType>, remote: Mem, k: Kind, base: nat, buf: Buf,
                                                     a: nat, depth: nat)
    requires k.ArrayPointer? && Has(remote, a, ARRAY_POINTER_SIZE) && buf.size + ARRAY_POINTER_SIZE <= |buf.mem|
    requires WordAt(remote, a) == 0 || WordAt(remote, a + WORD_SIZE) == 0
    ensures var r := Retrieve(types, remote, k, base, buf, a, depth);
            && r.status == Good && r.buf.mem == Splice(buf.mem, buf.size, Zeros(ARRAY_POINTER_SIZE))
            && Walk(types, Local(base, r.buf), k, base + buf.size, depth) == Some(Slice([]))
  {
    hide DeepCopy.Walk, Window, Range, WordAt, Memory.ToWord;
    var grown := buf.(size := buf.size + POINTER_SIZE);
    ZeroWord(WORD_SIZE);
    assert WordBytes(0) + WordBytes(0) == Zeros(ARRAY_POINTER_SIZE);
    EmptyTight(types, k, base, grown, buf.size, 0, [], depth);
    hide Memory.FromWord;
    var r := Store(grown, buf.size, WordBytes(0) + WordBytes(0)).buf;
    assert Splice(r.mem, 0, []) == r.mem;
  }

  /** Any other array pointer that is copied to the last eight bytes in use, whatever its elements,
      comes out with its count and their address; the elements are as they were copied, but for the
      first eight bytes, which hold that address as well. What is stored further down later does
      not matter. */
  lemma {:induction false} TightCopyMemory(types: seq<TsType>, remote: Mem, k: Kind, n: nat, base: nat, buf: Buf,
                                           s: nat, a: nat, depth: nat, e: Element, at: nat, data: seq<Byte>)
    requires k.ArrayPointer? && Resolve(types, k.element) == Okay(e) && base + |buf.mem| < WORD_LIMIT
    requires s + WORD_SIZE == buf.size && at + |data| <= s
    requires Has(remote, a, ARRAY_POINTER_SIZE) && WordAt(remote, a) != 0 && WordAt(remote, a + WORD_SIZE) != 0
    requires Copy(types, remote, k, n, base, buf, s, a, depth).status == Good
    ensures depth > 0
    ensures var r, q := Copy(types, remote, k, n, base, buf, s, a, depth), base + s + WORD_SIZE;
            var block := e.size * WordAt(remote, a);
            var items := Copy(types, remote, e.kind, block, base, buf.(size := buf.size + block), buf.size,
                              WordAt(remote, a + WORD_SIZE), depth - 1);
            var final := Store(r.buf, at, data);
            var m := Local(base, final.buf);
            && items.status == Good && s + ARRAY_POINTER_SIZE <= |items.buf.mem|
            && r.buf.mem == Splice(items.buf.mem, s, WordBytes(WordAt(remote, a)) + WordBytes(q))
            && final.status == Good && final.buf.mem[s..] == r.buf.mem[s..]
            && Has(m, base + s, ARRAY_POINTER_SIZE) && WordAt(m, base + s) == WordAt(remote, a) && WordAt(m, q) == q
  {
    hide Memory.FromWord, Memory.ToWord, Splice, DeepCopy.Copy, Window, Range;
    var q, block := base + s + WORD_SIZE, e.size * WordAt(remote, a);
    CopyUnfold(types, remote, k, n, base, buf, s, a, depth, e);
    var grown := buf.(size := buf.size + block);
    var items := Copy(types, remote, e.kind, block, base, grown, buf.size, WordAt(remote, a + WORD_SIZE), depth - 1);
    CopyKeepsLength(types, remote, e.kind, block, base, grown, buf.size, WordAt(remote, a + WORD_SIZE), depth - 1);
    var stored := Copy(types, remote, k, n, base, buf, s, a, depth).buf;
    var mem := Store(stored, at, data).buf.mem;
    hide WordBytes;
    StoredWords(stored.mem, items.buf.mem, s, WordAt(remote, a), q);
    SplicedTail(stored.mem, at, data, s);
    TailPiece(mem, stored.mem, s, s, s + WORD_SIZE);
    TailPiece(mem, stored.mem, s, s + WORD_SIZE, s + ARRAY_POINTER_SIZE);
    WordAtBound(remote, a);
    TightWords(base, mem, s, WordAt(remote, a));
  }

  lemma {:induction false} CopyUnfold(types: seq<TsType>, remote: Mem, k: Kind, n: nat, base: nat, buf: Buf, at: nat,
                                      a: nat, depth: nat, e: Element)
    requires k.ArrayPointer? && Resolve(types, k.element) == Okay(e)
    requires Has(remote, a, ARRAY_POINTER_SIZE) && WordAt(remote, a) != 0 && WordAt(remote, a + WORD_SIZE) != 0
    requires Copy(types, remote, k, n, base, buf, at, a, depth).status == Good
    ensures depth > 0
    ensures var block := e.size * WordAt(remote, a);
            var items := Copy(types, remote, e.kind, block, base, buf.(size := buf.size + block), buf.size,
                              WordAt(remote, a + WORD_SIZE), depth - 1);
            var words := WordBytes(WordAt(remote, a)) + WordBytes(base + buf.size);
            && items.status == Good && at + ARRAY_POINTER_SIZE <= |items.buf.mem|
            && Copy(types, remote, k, n, base, buf, at, a, depth).buf.mem == Splice(items.buf.mem, at, words)
  {
    hide WordAt, WordBytes, Resolve;
  }

  /** So it is for one that is retrieved on its own. */
  lemma {:induction false} RetrieveArrayPointerMemory(types: seq<TsType>, remote: Mem, k: Kind, base: nat, buf: Buf,
                                                      a: nat, depth: nat, e: Element)
    requires k.ArrayPointer? && Resolve(types, k.element) == Okay(e) && base + |buf.mem| < WORD_LIMIT
    requires Has(remote, a, ARRAY_POINTER_SIZE) && WordAt(remote, a) != 0 && WordAt(remote, a + WORD_SIZE) != 0
    requires Retrieve(types, remote, k, base, buf, a, depth).status == Good
    ensures depth > 0
    ensures var r, s, q := Retrieve(types, remote, k, base, buf, a, depth), buf.size, base + buf.size + POINTER_SIZE;
            var block := e.size * WordAt(remote, a);
            var items := Copy(types, remote, e.kind, block, base, buf.(size := s + POINTER_SIZE + block),
                              s + POINTER_SIZE, WordAt(remote, a + WORD_SIZE), depth - 1);
            var m := Local(base, r.buf);
            && items.status == Good && s + ARRAY_POINTER_SIZE <= |items.buf.mem|
            && r.buf.mem == Splice(items.buf.mem, s, WordBytes(WordAt(remote, a)) + WordBytes(q))
            && Has(m, base + s, ARRAY_POINTER_SIZE) && WordAt(m, base + s) == WordAt(remote, a) && WordAt(m, q) == q
  {
    hide DeepCopy.Copy, Window, Range, WordAt, WordBytes, Resolve, Splice;
    var grown := buf.(size := buf.size + POINTER_SIZE);
    TightCopyMemory(types, remote, k, POINTER_SIZE, base, grown, buf.size, a, depth, e, 0, []);
    StoreNothing(Copy(types, remote, k, POINTER_SIZE, base, grown, buf.size, a, depth).buf);
  }

  lemma {:induction false} StoreNothing(buf: Buf)
    ensures Store(buf, 0, []).buf == buf
  {
    assert Splice(buf.mem, 0, []) == buf.mem;
  }

  /** And behind a pointer. */
  lemma {:induction false} PointerToArrayPointerMemory(types: seq<TsType>, remote: Mem, k: Kind, n: nat, base: nat,
                                                       buf: Buf, at: nat, a: nat, depth: nat, e: Element, f: Element)
    requires k.Pointer? && Resolve(types, k.element) == Okay(e) && e.kind.ArrayPointer?
    requires Resolve(types, e.kind.element) == Okay(f) && base + |buf.mem| < WORD_LIMIT && at + POINTER_SIZE <= buf.size
    requires Has(remote, a, POINTER_SIZE) && WordAt(remote, a) != 0
    requires Has(remote, WordAt(remote, a), ARRAY_POINTER_SIZE)
    requires WordAt(remote, WordAt(remote, a)) != 0 && WordAt(remote, WordAt(remote, a) + WORD_SIZE) != 0
    requires Copy(types, remote, k, n, base, buf, at, a, depth).status == Good
    ensures var m := Local(base, Copy(types, remote, k, n, base, buf, at, a, depth).buf);
            var p := base + buf.size;
            && Has(m, base + at, POINTER_SIZE) && WordAt(m, base + at) == p && Has(m, p, ARRAY_POINTER_SIZE)
            && WordAt(m, p) == WordAt(remote, WordAt(remote, a)) && WordAt(m, p + WORD_SIZE) == p + WORD_SIZE
  {
    hide Window, Range, WordAt, WordBytes, Resolve, DeepCopy.Copy, Splice;
    var grown, data := buf.(size := buf.size + POINTER_SIZE), WordBytes(base + buf.size);
    PointerUnfold(types, remote, k, n, base, buf, at, a, depth, e);
    TightCopyMemory(types, remote, e.kind, e.size, base, grown, buf.size, WordAt(remote, a), depth - 1, f, at, data);
    var done := Copy(types, remote, e.kind, e.size, base, grown, buf.size, WordAt(remote, a), depth - 1).buf;
    StoreWord(base, done, at, base + buf.size, Range(base, base + |done.mem|));
  }

  lemma {:induction false} PointerUnfold(types: seq<TsType>, remote: Mem, k: Kind, n: nat, base: nat, buf: Buf, at: nat,
                                         a: nat, depth: nat, e: Element)
    requires k.Pointer? && Resolve(types, k.element) == Okay(e) && e.kind.ArrayPointer?
    requires Has(remote, a, POINTER_SIZE) && WordAt(remote, a) != 0
    requires Copy(types, remote, k, n, base, buf, at, a, depth).status == Good
    ensures depth > 0 && e.size == POINTER_SIZE && buf.size + POINTER_SIZE <= |buf.mem|
    ensures var r := Copy(types, remote, e.kind, e.size, base, buf.(size := buf.size + POINTER_SIZE), buf.size,
                          WordAt(remote, a), depth - 1);
            && r.status == Good
            && Copy(types, remote, k, n, base, buf, at, a, depth) == Store(r.buf, at, WordBytes(base + buf.size))
  {
    hide WordAt, WordBytes, DeepCopy.Store;
  }

  lemma {:induction false} CopyKeepsLength(types: seq<TsType>, remote: Mem, k: Kind, n: nat, base: nat, buf: Buf,
                                           at: nat, a: nat, depth: nat)
    ensures var r := Copy(types, remote, k, n, base, buf, at, a, depth).buf;
            |r.mem| == |buf.mem| && buf.size <= r.size
    decreases depth, 1, 0
  {
    hide DeepCopy.CopyFields, WordBytes, WordAt, Resolve, SizeOf, Splice;
    match k
    case Struct(_, fields) =>
      if depth > 0 {
        CopyFieldsKeepLength(types, remote, fields, base, buf, at, a, depth - 1);
      }
    case Pointer(element) =>
      var e := Resolve(types, element);
      if Has(remote, a, POINTER_SIZE) && e.Okay? && depth > 0 {
        CopyKeepsLength(types, remote, e.value.kind, e.value.size, base, buf.(size := buf.size + e.value.size),
                        buf.size, WordAt(remote, a), depth - 1);
      }
    case ArrayPointer(element) =>
      var e := Resolve(types, element);
      if Has(remote, a, ARRAY_POINTER_SIZE) && e.Okay? && depth > 0 {
        var block := e.value.size * WordAt(remote, a);
        CopyKeepsLength(types, remote, e.value.kind, block, base, buf.(size := buf.size + block), buf.size,
                        WordAt(remote, a + WORD_SIZE), depth - 1);
      }
    case _ =>
  }

  lemma {:induction false} CopyFieldsKeepLength(types: seq<TsType>, remote: Mem, fields: seq<Field>, base: nat,
                                                buf: Buf, at: nat, a: nat, depth: nat)
    ensures var r := CopyFields(types, remote, fields, base, buf, at, a, depth).buf;
            |r.mem| == |buf.mem| && buf.size <= r.size
    decreases depth, 2, |fields|
  {
    if fields != [] {
      var last := |fields| - 1;
      CopyFieldsKeepLength(types, remote, fields[..last], base, buf, at, a, depth);
      var mid, e := CopyFields(types, remote, fields[..last], base, buf, at, a, depth).buf,
        Resolve(types, fields[last].typeName);
      if e.Okay? {
        CopyKeepsLength(types, remote, e.value.kind, e.value.size, base, mid, at + fields[last].offset,
                        a + fields[last].offset, depth);
      }
    }
  }

  /** If the elements are pointers, the first one comes out pointing to itself, even if it was null. */
  lemma {:induction false} FirstPointsToItself(types: seq<TsType>, remote: Mem, k: Kind, base: nat, buf: Buf, a: nat,
                                               depth: nat, e: Element, f: Element, d: nat)
    requires k.ArrayPointer? && Resolve(types, k.element) == Okay(e) && base + |buf.mem| < WORD_LIMIT
    requires e.kind.Pointer? && Resolve(types, e.kind.element) == Okay(f) && d > 0
    requires Has(remote, a, ARRAY_POINTER_SIZE) && WordAt(remote, a) != 0 && WordAt(remote, a + WORD_SIZE) != 0
    requires Retrieve(types, remote, k, base, buf, a, depth).status == Good
    ensures var m, q := Local(base, Retrieve(types, remote, k, base, buf, a, depth).buf),
            base + buf.size + POINTER_SIZE;
            var w := Walk(types, m, f.kind, q, d - 1);
            Walk(types, m, e.kind, q, d) == if w.None? then None else Some(Ref(w.value))
  {
    hide Resolve, WordAt, DeepCopy.Retrieve, Window, Range;
    RetrieveArrayPointerMemory(types, remote, k, base, buf, a, depth, e);
  }

  /** One step of copying a pointer to an array pointer, and of walking it there and here. */
  lemma {:induction false} RefUnfold(types: seq<TsType>, remote: Mem, k: Kind, n: nat, base: nat, buf: Buf, at: nat,
                                     a: nat, depth: nat, e: Element, v: Value)
    requires k.Pointer? && Resolve(types, k.element) == Okay(e) && e.kind.ArrayPointer?
    requires buf.size + POINTER_SIZE <= |buf.mem|
    requires Walk(types, remote, k, a, depth) == Some(Ref(v))
    ensures depth > 0 && e.size == POINTER_SIZE && Has(remote, a, POINTER_SIZE) && WordAt(remote, a) != 0
    ensures Walk(types, remote, e.kind, WordAt(remote, a), depth - 1) == Some(v)
    ensures Span(types, k, Ref(v)) == POINTER_SIZE + Span(types, e.kind, v)
    ensures var r := Copy(types, remote, e.kind, e.size, base, buf.(size := buf.size + e.size), buf.size,
                          WordAt(remote, a), depth - 1);
            r.status == Good ==>
              Copy(types, remote, k, n, base, buf, at, a, depth) == Store(r.buf, at, WordBytes(base + buf.size))
  {
    hide DeepCopy.Store;
  }

  lemma {:induction false} RefWalk(types: seq<TsType>, m: Mem, k: Kind, a: nat, depth: nat, e: Element, p: nat,
                                   v: Value)
    requires k.Pointer? && Resolve(types, k.element) == Okay(e) && depth > 0 && p > 0
    requires Has(m, a, WORD_SIZE) && WordAt(m, a) == p
    ensures Walk(types, m, k, a, depth) == Some(Ref(v)) <==> Walk(types, m, e.kind, p, depth - 1) == Some(v)
  {
  }

  /** Behind a pointer, an array pointer has the same eight bytes, and the same fate. */
  lemma {:induction false} PointerToArrayPointerIff(types: seq<TsType>, remote: Mem, k: Kind, n: nat, base: nat,
                                                    buf: Buf, at: nat, a: nat, depth: nat, e: Element, vs: seq<Value>)
    requires k.Pointer? && Resolve(types, k.element) == Okay(e) && e.kind.ArrayPointer? && RawSlices(types, e.kind)
    requires base > 0 && base + |buf.mem| < WORD_LIMIT && at + POINTER_SIZE <= buf.size
    requires buf.size + ARRAY_POINTER_SIZE <= |buf.mem|
    requires Walk(types, remote, k, a, depth) == Some(Ref(Slice(vs)))
    requires buf.size + Span(types, k, Ref(Slice(vs))) <= |buf.mem|
    ensures Has(remote, a, POINTER_SIZE) && Has(remote, WordAt(remote, a), ARRAY_POINTER_SIZE)
    ensures var r := Copy(types, remote, k, n, base, buf, at, a, depth);
            && r.status == Good
            && (Walk(types, Local(base, r.buf), k, base + at, depth) == Some(Ref(Slice(vs))) <==>
                Unharmed(types, remote, e.kind, WordAt(remote, a), base + buf.size + POINTER_SIZE))
  {
    hide DeepCopy.Copy, DeepCopy.Walk, DeepCopy.Span, Unharmed, RawSlices, DeepCopy.Store, Window, Range, WordAt,
      WordBytes, Resolve;
    RefUnfold(types, remote, k, n, base, buf, at, a, depth, e, Slice(vs));
    var grown, data := buf.(size := buf.size + POINTER_SIZE), WordBytes(base + buf.size);
    TightIff(types, remote, e.kind, e.size, base, grown, buf.size, WordAt(remote, a), depth - 1, vs, at, data);
    var done := Copy(types, remote, e.kind, e.size, base, grown, buf.size, WordAt(remote, a), depth - 1).buf;
    var local := Local(base, Store(done, at, data).buf);
    StoreWord(base, done, at, base + buf.size, Range(base, base + |done.mem|));
    RefWalk(types, local, k, base + at, depth, e, base + buf.size, Slice(vs));
  }

  lemma {:induction false} OneUnfold(types: seq<TsType>, remote: Mem, k: Kind, n: nat, base: nat, buf: Buf, at: nat,
                                     a: nat, depth: nat, e: Element, v: Value)
    requires k.ArrayPointer? && Resolve(types, k.element) == Okay(e) && e.kind.ArrayPointer?
    requires buf.size + POINTER_SIZE <= |buf.mem|
    requires Walk(types, remote, k, a, depth) == Some(Slice([v]))
    ensures depth > 0 && e.size == POINTER_SIZE && Has(remote, a, ARRAY_POINTER_SIZE)
    ensures WordAt(remote, a) == 1 && WordAt(remote, a + WORD_SIZE) != 0
    ensures Walk(types, remote, e.kind, WordAt(remote, a + WORD_SIZE), depth - 1) == Some(v)
    ensures Span(types, k, Slice([v])) == POINTER_SIZE + Span(types, e.kind, v)
    ensures var r := Copy(types, remote, e.kind, e.size, base, buf.(size := buf.size + e.size), buf.size,
                          WordAt(remote, a + WORD_SIZE), depth - 1);
            r.status == Good ==>
              Copy(types, remote, k, n, base, buf, at, a, depth) ==
                  Store(r.buf, at, WordBytes(1) + WordBytes(base + buf.size))
  {
    hide DeepCopy.Store;
    var ws := WalkItems(types, remote, e, WordAt(remote, a + WORD_SIZE), WordAt(remote, a), depth - 1);
    assert |ws.value| == 1;
    WalkItemsUnfold(types, remote, e, WordAt(remote, a + WORD_SIZE), WordAt(remote, a), depth - 1);
    TotalIsProduct(e.size, 1);
  }

  lemma {:induction false} OneWalk(types: seq<TsType>, m: Mem, k: Kind, a: nat, depth: nat, e: Element, p: nat,
                                   v: Value)
    requires k.ArrayPointer? && Resolve(types, k.element) == Okay(e) && depth > 0 && p > 0
    requires Has(m, a, ARRAY_POINTER_SIZE) && WordAt(m, a) == 1 && WordAt(m, a + WORD_SIZE) == p
    ensures Walk(types, m, k, a, depth) == Some(Slice([v])) <==> Walk(types, m, e.kind, p, depth - 1) == Some(v)
  {
    OneItemWalk(types, m, e, p, WordAt(m, a), depth - 1);
  }

  lemma {:induction false} OneItemWalk(types: seq<TsType>, m: Mem, e: Element, a: nat, count: nat, depth: nat)
    requires count == 1
    ensures var v := Walk(types, m, e.kind, a, depth);
            WalkItems(types, m, e, a, count, depth) == if v.None? then None else Some([v.value])
  {
    hide DeepCopy.Walk;
    assert WalkItems(types, m, e, a + e.size, count - 1, depth) == Some([]);
    assert forall v: Value :: [v] + [] == [v];
  }

  /** And so has one that is the only element of another. */
  lemma {:induction false} ArrayOfOneArrayPointerIff(types: seq<TsType>, remote: Mem, k: Kind, n: nat, base: nat,
                                                     buf: Buf, at: nat, a: nat, depth: nat, e: Element, vs: seq<Value>)
    requires k.ArrayPointer? && Resolve(types, k.element) == Okay(e) && e.kind.ArrayPointer? && RawSlices(types, e.kind)
    requires base > 0 && base + |buf.mem| < WORD_LIMIT && at + ARRAY_POINTER_SIZE <= buf.size
    requires buf.size + ARRAY_POINTER_SIZE <= |buf.mem|
    requires Walk(types, remote, k, a, depth) == Some(Slice([Slice(vs)]))
    requires buf.size + Span(types, k, Slice([Slice(vs)])) <= |buf.mem|
    ensures Has(remote, a, ARRAY_POINTER_SIZE) && Has(remote, WordAt(remote, a + WORD_SIZE), ARRAY_POINTER_SIZE)
    ensures var r := Copy(types, remote, k, n, base, buf, at, a, depth);
            && r.status == Good
            && (Walk(types, Local(base, r.buf), k, base + at, depth) == Some(Slice([Slice(vs)])) <==>
                Unharmed(types, remote, e.kind, WordAt(remote, a + WORD_SIZE), base + buf.size + POINTER_SIZE))
  {
    hide DeepCopy.Copy, DeepCopy.Walk, DeepCopy.Span, Unharmed, RawSlices, DeepCopy.Store, Window, Range, WordAt,
      WordBytes, Resolve;
    OneUnfold(types, remote, k, n, base, buf, at, a, depth, e, Slice(vs));
    var p, grown := WordAt(remote, a + WORD_SIZE), buf.(size := buf.size + POINTER_SIZE);
    var data := WordBytes(1) + WordBytes(base + buf.size);
    TightIff(types, remote, e.kind, e.size, base, grown, buf.size, p, depth - 1, vs, at, data);
    var done := Copy(types, remote, e.kind, e.size, base, grown, buf.size, p, depth - 1).buf;
    var local := Local(base, Store(done, at, data).buf);
    StoreSlice(base, done, at, 1, base + buf.size, Range(base, base + |done.mem|));
    OneWalk(types, local, k, base + at, depth, e, base + buf.size, Slice(vs));
  }

  // ---------- arrays of array pointers ----------

  lemma {:induction false} CopyKeepsBelow(types: seq<TsType>, remote: Mem, k: Kind, n: nat, base: nat, buf: Buf,
                                          at: nat, a: nat, depth: nat, lo: nat)
    requires lo <= at && lo <= buf.size && lo <= |buf.mem|
    ensures var mem := Copy(types, remote, k, n, base, buf, at, a, depth).buf.mem;
            |mem| == |buf.mem| && mem[..lo] == buf.mem[..lo]
    decreases depth, 1, 0
  {
    hide DeepCopy.CopyFields, WordBytes, WordAt, Resolve, SizeOf, Splice;
    match k
    case Struct(_, fields) =>
      if depth > 0 {
        CopyFieldsKeepBelow(types, remote, fields, base, buf, at, a, depth - 1, lo);
      }
    case Pointer(element) =>
      var e := Resolve(types, element);
      if Has(remote, a, POINTER_SIZE) && e.Okay? && depth > 0 {
        CopyKeepsBelow(types, remote, e.value.kind, e.value.size, base, buf.(size := buf.size + e.value.size),
                       buf.size, WordAt(remote, a), depth - 1, lo);
      }
    case ArrayPointer(element) =>
      var e := Resolve(types, element);
      if Has(remote, a, ARRAY_POINTER_SIZE) && e.Okay? && depth > 0 {
        var block := e.value.size * WordAt(remote, a);
        CopyKeepsBelow(types, remote, e.value.kind, block, base, buf.(size := buf.size + block), buf.size,
                       WordAt(remote, a + WORD_SIZE), depth - 1, lo);
      }
    case _ =>
  }

  lemma {:induction false} CopyFieldsKeepBelow(types: seq<TsType>, remote: Mem, fields: seq<Field>, base: nat, buf: Buf,
                                               at: nat, a: nat, depth: nat, lo: nat)
    requires lo <= at && lo <= buf.size && lo <= |buf.mem|
    ensures var r := CopyFields(types, remote, fields, base, buf, at, a, depth).buf;
            |r.mem| == |buf.mem| && r.mem[..lo] == buf.mem[..lo] && buf.size <= r.size
    decreases depth, 2, |fields|
  {
    hide DeepCopy.Copy, Resolve;
    if fields != [] {
      var last := |fields| - 1;
      CopyFieldsKeepBelow(types, remote, fields[..last], base, buf, at, a, depth, lo);
      var mid := CopyFields(types, remote, fields[..last], base, buf, at, a, depth).buf;
      var e, o := Resolve(types, fields[last].typeName), fields[last].offset;
      if e.Okay? {
        CopyKeepsBelow(types, remote, e.value.kind, e.value.size, base, mid, at + o, a + o, depth, lo);
        CopyKeepsLength(types, remote, e.value.kind, e.value.size, base, mid, at + o, a + o, depth);
      }
    }
  }

  /** The sixteen bytes at `s`, and zeros up to `end`. */
  ghost predicate WordsThenZeros(mem: seq<Byte>, s: nat, count: nat, q: nat, end: nat) {
    && s + ARRAY_POINTER_SIZE <= end <= |mem|
    && mem[s..s + WORD_SIZE] == WordBytes(count) && mem[s + WORD_SIZE..s + ARRAY_POINTER_SIZE] == WordBytes(q)
    && mem[s + ARRAY_POINTER_SIZE..end] == Zeros(end - s - ARRAY_POINTER_SIZE)
  }

  /** The first of several array pointers, copied to the start of the block for all of them, which
      has room for it: its elements come behind the block. */
  lemma {:induction false} FirstOfSeveral(types: seq<TsType>, remote: Mem, k: Kind, n: nat, base: nat, buf: Buf, s: nat,
                                          a: nat, depth: nat)
    requires k.ArrayPointer? && Has(remote, a, ARRAY_POINTER_SIZE)
    requires s + ARRAY_POINTER_SIZE <= buf.size <= |buf.mem| && buf.mem[s..buf.size] == Zeros(buf.size - s)
    requires Copy(types, remote, k, n, base, buf, s, a, depth).status == Good
    ensures var count, p := WordAt(remote, a), WordAt(remote, a + WORD_SIZE);
            var mem := Copy(types, remote, k, n, base, buf, s, a, depth).buf.mem;
            |mem| == |buf.mem| &&
            if count == 0 || p == 0 then WordsThenZeros(mem, s, 0, 0, buf.size)
            else WordsThenZeros(mem, s, count, base + buf.size, buf.size)
  {
    hide WordAt, WordBytes, Resolve, Splice;
    var count, p := WordAt(remote, a), WordAt(remote, a + WORD_SIZE);
    var mem := Copy(types, remote, k, n, base, buf, s, a, depth).buf.mem;
    if count == 0 || p == 0 {
      hide DeepCopy.Copy;
      CopyEmpty(types, remote, k, n, base, buf, s, a, depth);
      ZerosBehind(mem, buf.mem, s, 0, 0, buf.size);
    } else {
      var e := NamedElement(types, remote, k, n, base, buf, s, a, depth);
      var block := e.size * count;
      CopyUnfold(types, remote, k, n, base, buf, s, a, depth, e);
      var grown := buf.(size := buf.size + block);
      CopyKeepsBelow(types, remote, e.kind, block, base, grown, buf.size, p, depth - 1, buf.size);
      hide DeepCopy.Copy;
      var items := Copy(types, remote, e.kind, block, base, grown, buf.size, p, depth - 1).buf.mem;
      assert items[s..buf.size] == items[..buf.size][s..] == buf.mem[..buf.size][s..] == buf.mem[s..buf.size];
      ZerosBehind(mem, items, s, count, base + buf.size, buf.size);
    }
  }

  lemma {:induction false} CopyEmpty(types: seq<TsType>, remote: Mem, k: Kind, n: nat, base: nat, buf: Buf, s: nat,
                                     a: nat, depth: nat)
    requires k.ArrayPointer? && Has(remote, a, ARRAY_POINTER_SIZE) && s + ARRAY_POINTER_SIZE <= |buf.mem|
    requires WordAt(remote, a) == 0 || WordAt(remote, a + WORD_SIZE) == 0
    ensures Copy(types, remote, k, n, base, buf, s, a, depth).buf.mem == Splice(buf.mem, s, WordBytes(0) + WordBytes(0))
  {
    hide WordBytes, WordAt;
  }

  lemma {:induction false} NamedElement(types: seq<TsType>, remote: Mem, k: Kind, n: nat, base: nat, buf: Buf, s: nat,
                                        a: nat, depth: nat)
    returns (e: Element)
    requires k.ArrayPointer? && Has(remote, a, ARRAY_POINTER_SIZE)
    requires WordAt(remote, a) != 0 && WordAt(remote, a + WORD_SIZE) != 0
    requires Copy(types, remote, k, n, base, buf, s, a, depth).status == Good
    ensures Resolve(types, k.element) == Okay(e)
  {
    e := Resolve(types, k.element).value;
  }

  lemma {:induction false} ZerosBehind(mem: seq<Byte>, before: seq<Byte>, s: nat, count: nat, q: nat, end: nat)
    requires s + ARRAY_POINTER_SIZE <= end <= |before| && before[s..end] == Zeros(end - s)
    requires mem == Splice(before, s, WordBytes(count) + WordBytes(q))
    ensures WordsThenZeros(mem, s, count, q, end)
  {
    hide WordBytes;
    StoredWords(mem, before, s, count, q);
    var tail := mem[s + ARRAY_POINTER_SIZE..end];
    forall i | 0 <= i < |tail| ensures tail[i] == 0 {
      assert before[s..end][ARRAY_POINTER_SIZE + i] == 0;
    }
  }

  lemma {:induction false} WordsInPlace(base: nat, mem: seq<Byte>, s: nat, count: nat, q: nat)
    requires s + ARRAY_POINTER_SIZE <= |mem| && count < WORD_LIMIT && q < WORD_LIMIT
    requires mem[s..s + WORD_SIZE] == WordBytes(count) && mem[s + WORD_SIZE..s + ARRAY_POINTER_SIZE] == WordBytes(q)
    ensures var m := Window(base, mem, Range(base, base + |mem|));
            && Has(m, base + s, ARRAY_POINTER_SIZE)
            && WordAt(m, base + s) == count && WordAt(m, base + s + WORD_SIZE) == q
  {
    hide Memory.FromWord, Memory.ToWord, Window, Range;
    LocalBytes(base, mem, s, ARRAY_POINTER_SIZE);
    LocalBytes(base, mem, s, WORD_SIZE);
    LocalBytes(base, mem, s + WORD_SIZE, WORD_SIZE);
    WordBytesRoundTrip(count);
    WordBytesRoundTrip(q);
  }

  lemma {:induction false} ZeroInPlace(base: nat, mem: seq<Byte>, s: nat, count: nat, q: nat, end: nat, i: nat)
    requires WordsThenZeros(mem, s, count, q, end) && s + ARRAY_POINTER_SIZE <= i && i + WORD_SIZE <= end
    ensures var m := Window(base, mem, Range(base, base + |mem|));
            Has(m, base + i, WORD_SIZE) && WordAt(m, base + i) == 0
  {
    hide Memory.FromWord, Memory.ToWord, Window, Range, WordBytes;
    LocalBytes(base, mem, i, WORD_SIZE);
    var word := mem[i..i + WORD_SIZE];
    forall j | 0 <= j < WORD_SIZE ensures word[j] == 0 {
      assert mem[s + ARRAY_POINTER_SIZE..end][i - s - ARRAY_POINTER_SIZE + j] == 0;
    }
    assert word == seq(WORD_SIZE, _ => 0);
    ZeroWord(WORD_SIZE);
  }

  /** What an array pointer to several array pointers comes out as: the words found at steps of eight
      bytes are the count and the address of the first one, or zeros if that is empty, and then zeros
      only. */
  lemma {:induction false} ArrayOfArrayPointers(types: seq<TsType>, remote: Mem, k: Kind, n: nat, base: nat, buf: Buf,
                                                at: nat, a: nat, depth: nat, e: Element, i: nat)
    requires k.ArrayPointer? && Resolve(types, k.element) == Okay(e) && e.kind.ArrayPointer?
    requires base + |buf.mem| < WORD_LIMIT && Zeroed(buf) && at + ARRAY_POINTER_SIZE <= buf.size
    requires Has(remote, a, ARRAY_POINTER_SIZE) && WordAt(remote, a) > 1 && WordAt(remote, a + WORD_SIZE) != 0
    requires Copy(types, remote, k, n, base, buf, at, a, depth).status == Good && i < WordAt(remote, a)
    ensures var count, p := WordAt(remote, a), WordAt(remote, a + WORD_SIZE);
            var m, q := Local(base, Copy(types, remote, k, n, base, buf, at, a, depth).buf), base + buf.size;
            && Has(remote, p, ARRAY_POINTER_SIZE)
            && Has(m, base + at, ARRAY_POINTER_SIZE)
            && WordAt(m, base + at) == count && WordAt(m, base + at + WORD_SIZE) == q
            && var empty := WordAt(remote, p) == 0 || WordAt(remote, p + WORD_SIZE) == 0;
               Has(m, q + WORD_SIZE * i, WORD_SIZE) && WordAt(m, q + WORD_SIZE * i) ==
               if empty || i > 1 then 0 else if i == 0 then WordAt(remote, p) else q + POINTER_SIZE * count
  {
    hide WordAt, WordBytes, Resolve, Splice, Window, Range, DeepCopy.Copy;
    var count, p, s := WordAt(remote, a), WordAt(remote, a + WORD_SIZE), buf.size;
    CopyUnfold(types, remote, k, n, base, buf, at, a, depth, e);
    assert e.size == POINTER_SIZE by { PointerSized(types, k.element, e); }
    var grown := buf.(size := s + POINTER_SIZE * count);
    SeveralFit(types, remote, k, n, base, buf, at, a, depth, e);
    assert buf.mem[s..grown.size] == Zeros(grown.size - s);
    FirstOfSeveral(types, remote, e.kind, POINTER_SIZE * count, base, grown, s, p, depth - 1);
    var first := Copy(types, remote, e.kind, POINTER_SIZE * count, base, grown, s, p, depth - 1).buf.mem;
    var mem := Copy(types, remote, k, n, base, buf, at, a, depth).buf.mem;
    WordAtBound(remote, a);
    WordAtBound(remote, p);
    SeveralWords(base, mem, first, at, count, s, remote, p, i);
  }

  lemma {:induction false} SeveralFit(types: seq<TsType>, remote: Mem, k: Kind, n: nat, base: nat, buf: Buf, at: nat,
                                      a: nat, depth: nat, e: Element)
    requires k.ArrayPointer? && Resolve(types, k.element) == Okay(e) && e.kind.ArrayPointer?
    requires Has(remote, a, ARRAY_POINTER_SIZE) && WordAt(remote, a) != 0 && WordAt(remote, a + WORD_SIZE) != 0
    requires Copy(types, remote, k, n, base, buf, at, a, depth).status == Good
    ensures buf.size + e.size * WordAt(remote, a) <= |buf.mem|
    ensures Has(remote, WordAt(remote, a + WORD_SIZE), ARRAY_POINTER_SIZE)
  {
    hide WordAt, WordBytes, DeepCopy.Store;
  }

  lemma {:induction false} SeveralWords(base: nat, mem: seq<Byte>, first: seq<Byte>, at: nat, count: nat, s: nat,
                                        remote: Mem, p: nat, i: nat)
    requires base + |first| < WORD_LIMIT && at + ARRAY_POINTER_SIZE <= s && Has(remote, p, ARRAY_POINTER_SIZE)
    requires 1 < count < WORD_LIMIT && i < count && WordAt(remote, p) < WORD_LIMIT
    requires |first| >= s && mem == Splice(first, at, WordBytes(count) + WordBytes(base + s))
    requires var end := s + POINTER_SIZE * count;
             if WordAt(remote, p) == 0 || WordAt(remote, p + WORD_SIZE) == 0 then WordsThenZeros(first, s, 0, 0, end)
             else WordsThenZeros(first, s, WordAt(remote, p), base + end, end)
    ensures var m, q := Window(base, mem, Range(base, base + |mem|)), base + s;
            && Has(m, base + at, ARRAY_POINTER_SIZE)
            && WordAt(m, base + at) == count && WordAt(m, base + at + WORD_SIZE) == q
            && var empty := WordAt(remote, p) == 0 || WordAt(remote, p + WORD_SIZE) == 0;
               Has(m, q + WORD_SIZE * i, WORD_SIZE) && WordAt(m, q + WORD_SIZE * i) ==
               if empty || i > 1 then 0 else if i == 0 then WordAt(remote, p) else q + POINTER_SIZE * count
  {
    hide WordAt, WordBytes, Splice, Window, Range;
    var end := s + POINTER_SIZE * count;
    var empty := WordAt(remote, p) == 0 || WordAt(remote, p + WORD_SIZE) == 0;
    var c, q := if empty then 0 else WordAt(remote, p), if empty then 0 else base + end;
    StoredWords(mem, first, at, count, base + s);
    WordsInPlace(base, mem, at, count, base + s);
    SplicedTail(first, at, WordBytes(count) + WordBytes(base + s), s);
    TailPiece(mem, first, s, s, s + WORD_SIZE);
    TailPiece(mem, first, s, s + WORD_SIZE, s + ARRAY_POINTER_SIZE);
    TailPiece(mem, first, s, s + ARRAY_POINTER_SIZE, end);
    WordsInPlace(base, mem, s, c, q);
    if i > 1 {
      ZeroInPlace(base, mem, s, c, q, end, s + WORD_SIZE * i);
    }
  }

  // ---------- array pointers in static arrays ----------

  /** A static array of array pointers is copied as eight bytes for each, where they take sixteen:
      in the first half both words come over, with addresses of the memory they were copied from;
      in the second half there is no address, so they come out empty. */
  lemma {:induction false} StaticArrayPointers(types: seq<TsType>, remote: Mem, k: Kind, base: nat, buf: Buf, a: nat,
                                               depth: nat, e: Element, i: nat)
    requires k.StaticArray? && Resolve(types, k.element) == Okay(e) && e.kind.ArrayPointer? && SizeOf(types, k).Okay?
    requires Has(remote, a, POINTER_SIZE * k.count) && i < k.count
    requires Zeroed(buf) && buf.size + ARRAY_POINTER_SIZE * k.count <= |buf.mem|
    ensures var r, at := Retrieve(types, remote, k, base, buf, a, depth), ARRAY_POINTER_SIZE * i;
            var m := Local(base, r.buf);
            var p := base + buf.size + at;
            && r.status == Good && Has(m, p, ARRAY_POINTER_SIZE)
            && (at + WORD_SIZE <= POINTER_SIZE * k.count ==> WordAt(m, p) == WordAt(remote, a + at))
            && (if at + ARRAY_POINTER_SIZE <= POINTER_SIZE * k.count
                then WordAt(m, p + WORD_SIZE) == WordAt(remote, a + at + WORD_SIZE)
                else Decode(types, m, e.kind, p, depth) == Some(Counted([])))
  {
    hide DeepCopy.Retrieve, Resolve, Decode, Splice, Window, Range, SizeOf, WordAt, Has;
    var size := POINTER_SIZE * k.count;
    TightlySized(types, k, e);
    RetrieveRaw(types, remote, k, base, buf, a, depth, size);
    SlotComesOver(types, remote, e.kind, base, buf, a, depth, size,
                  Retrieve(types, remote, k, base, buf, a, depth).buf.mem, ARRAY_POINTER_SIZE * i);
  }

  lemma {:induction false} SlotComesOver(types: seq<TsType>, remote: Mem, k: Kind, base: nat, buf: Buf, a: nat,
                                         depth: nat, size: nat, mem: seq<Byte>, at: nat)
    requires k.ArrayPointer? && Has(remote, a, size) && size % WORD_SIZE == at % WORD_SIZE == 0 && Zeroed(buf)
    requires buf.size + size <= |buf.mem| && buf.size + at + ARRAY_POINTER_SIZE <= |buf.mem|
    requires mem == Splice(buf.mem, buf.size, Bytes(remote, a, size))
    ensures var m, p := Window(base, mem, Range(base, base + |mem|)), base + buf.size + at;
            && Has(m, p, ARRAY_POINTER_SIZE)
            && (at + WORD_SIZE <= size ==> WordAt(m, p) == WordAt(remote, a + at))
            && (if at + ARRAY_POINTER_SIZE <= size
                then WordAt(m, p + WORD_SIZE) == WordAt(remote, a + at + WORD_SIZE)
                else Decode(types, m, k, p, depth) == Some(Counted([])))
  {
    hide Decode, Splice, Window, Range, WordAt;
    LocalBytes(base, mem, buf.size + at, ARRAY_POINTER_SIZE);
    if at + WORD_SIZE <= size {
      WordComesOver(base, buf, remote, a, size, mem, at);
    }
    if at + ARRAY_POINTER_SIZE <= size {
      WordComesOver(base, buf, remote, a, size, mem, at + WORD_SIZE);
    } else {
      NoWordComesOver(base, buf, Bytes(remote, a, size), mem, at + WORD_SIZE);
      NoPointerMeans(types, Window(base, mem, Range(base, base + |mem|)), k, base + buf.size + at, depth);
    }
  }

  lemma {:induction false} TightlySized(types: seq<TsType>, k: Kind, e: Element)
    requires k.StaticArray? && SizeOf(types, k).Okay? && Resolve(types, k.element) == Okay(e) && e.kind.ArrayPointer?
    ensures SizeOf(types, k) == Okay(POINTER_SIZE * k.count)
  {
    hide SizeVia;
    ArraySize(types, k);
    TotalIsProduct(e.size, k.count);
    assert e.size == POINTER_SIZE by { PointerSized(types, k.element, e); }
  }

  lemma {:induction false} WordComesOver(base: nat, buf: Buf, remote: Mem, a: nat, size: nat, mem: seq<Byte>, at: nat)
    requires Has(remote, a, size) && buf.size + size <= |buf.mem|
    requires mem == Splice(buf.mem, buf.size, Bytes(remote, a, size))
    requires at + WORD_SIZE <= size
    ensures var m := Window(base, mem, Range(base, base + |mem|));
            Has(m, base + buf.size + at, WORD_SIZE) && WordAt(m, base + buf.size + at) == WordAt(remote, a + at)
  {
    hide Window, Range, Splice, Memory.ToWord;
    LocalBytes(base, mem, buf.size + at, WORD_SIZE);
    PieceOver(buf.mem, buf.size, Bytes(remote, a, size), at);
    assert Bytes(remote, a, size)[at..at + WORD_SIZE] == Bytes(remote, a + at, WORD_SIZE);
  }

  lemma {:induction false} PieceOver(mem: seq<Byte>, s: nat, data: seq<Byte>, at: nat)
    requires s + |data| <= |mem| && at + WORD_SIZE <= |data|
    ensures Splice(mem, s, data)[s + at..s + at + WORD_SIZE] == data[at..at + WORD_SIZE]
  {
    hide Splice;
  }

  lemma {:induction false} NoWordComesOver(base: nat, buf: Buf, bytes: seq<Byte>, mem: seq<Byte>, at: nat)
    requires Zeroed(buf) && |bytes| <= at && buf.size + at + WORD_SIZE <= |buf.mem|
    requires mem == Splice(buf.mem, buf.size, bytes)
    ensures var m := Window(base, mem, Range(base, base + |mem|));
            Has(m, base + buf.size + at, WORD_SIZE) && WordAt(m, base + buf.size + at) == 0
  {
    hide Window, Range, Memory.ToWord, Memory.FromWord;
    LocalBytes(base, mem, buf.size + at, WORD_SIZE);
    assert mem[buf.size + at..buf.size + at + WORD_SIZE] == seq(WORD_SIZE, _ => 0);
    ZeroWord(WORD_SIZE);
  }

  /** Of a static array of one array pointer only the count comes over: its elements are gone,
      whatever they were. */
  lemma {:induction false} StaticArrayPointerComesOutEmpty(types: seq<TsType>, remote: Mem, k: Kind, base: nat,
                                                           buf: Buf, a: nat, depth: nat, e: Element)
    requires k.StaticArray? && k.count == 1 && Resolve(types, k.element) == Okay(e) && e.kind.ArrayPointer?
    requires SizeOf(types, k).Okay? && depth > 0 && Has(remote, a, POINTER_SIZE)
    requires Zeroed(buf) && buf.size + ARRAY_POINTER_SIZE <= |buf.mem|
    ensures var r := Retrieve(types, remote, k, base, buf, a, depth);
            && r.status == Good
            && Decode(types, Local(base, r.buf), k, base + buf.size, depth) == Some(Fixed([Counted([])]))
  {
    hide DeepCopy.Retrieve, WordAt, SizeOf, Zeroed, Resolve, Decode, DecodeItems, Window, Range, Splice;
    var m := Local(base, Retrieve(types, remote, k, base, buf, a, depth).buf);
    StaticArrayPointers(types, remote, k, base, buf, a, depth, e, 0);
    StaticDepth(types, remote, k, base, buf, a, depth);
    StaticArrayPointers(types, remote, k, base, buf, a, depth - 1, e, 0);
    OneFixed(types, m, k, base + buf.size, depth, e, Counted([]));
  }

  lemma {:induction false} StaticDepth(types: seq<TsType>, remote: Mem, k: Kind, base: nat, buf: Buf, a: nat,
                                       depth: nat)
    requires k.StaticArray? && depth > 0
    ensures Retrieve(types, remote, k, base, buf, a, depth) == Retrieve(types, remote, k, base, buf, a, depth - 1)
  {
  }

  lemma {:induction false} PointerSized(types: seq<TsType>, name: string, e: Element)
    requires Resolve(types, name) == Okay(e) && e.kind.ArrayPointer?
    ensures e.size == POINTER_SIZE
  {
  }

  lemma {:induction false} OneFixed(types: seq<TsType>, m: Mem, k: Kind, a: nat, depth: nat, e: Element, v: Meaning)
    requires k.StaticArray? && k.count == 1 && Resolve(types, k.element) == Okay(e) && depth > 0
    requires Decode(types, m, e.kind, a, depth - 1) == Some(v)
    ensures Decode(types, m, k, a, depth) == Some(Fixed([v]))
  {
    OneItem(types, m, e, a, k.count, depth - 1, v);
  }

  lemma {:induction false} RetrieveRaw(types: seq<TsType>, remote: Mem, k: Kind, base: nat, buf: Buf, a: nat,
                                       depth: nat, n: nat)
    requires IsRaw(k) && SizeOf(types, k) == Okay(n) && Has(remote, a, n) && buf.size + n <= |buf.mem|
    ensures var r := Retrieve(types, remote, k, base, buf, a, depth);
            r.status == Good && r.buf.mem == Splice(buf.mem, buf.size, Bytes(remote, a, n))
  {
    UnfoldRaw(types, remote, k, n, base, buf.(size := buf.size + n), buf.size, a, depth);
  }

  lemma {:induction false} NoPointerMeans(types: seq<TsType>, m: Mem, k: Kind, a: nat, depth: nat)
    requires k.ArrayPointer? && Has(m, a, ARRAY_POINTER_SIZE) && WordAt(m, a + WORD_SIZE) == 0
    ensures Decode(types, m, k, a, depth) == Some(Counted([]))
  {
  }
}
