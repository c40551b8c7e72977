/** Memory shared between the host and a subjail, and the Lua calls that go through it
    (src/ghost/fdmem.c, src/ghost/thread.c, src/jail/subjail.c). */
module FdMem {
  import opened Basics
  import opened Memory

  // ---------- pointers ----------

  /** `ipcfdmem_realptr`: the address behind a virtual pointer, or 0. A virtual pointer
      is an offset plus one. */
  function RealAt(base: nat, occupied: nat, ptr: nat): nat {
    if ptr == 0 || ptr - 1 >= occupied then 0 else base + (ptr - 1)
  }

  /** `gh_fdmem_realptr`; the last byte is found with wrapping arithmetic. */
  function RealPtr(base: nat, occupied: nat, ptr: nat, size: nat): nat {
    if size == 0 || RealAt(base, occupied, (ptr + size - 1) % WORD_LIMIT) == 0 then 0 else RealAt(base, occupied, ptr)
  }

  function VirtAt(base: nat, occupied: nat, p: nat): nat {
    if p < base || p >= base + occupied then 0 else p - base + 1
  }

  function VirtPtr(base: nat, occupied: nat, p: nat, size: nat): nat {
    if size == 0 || VirtAt(base, occupied, (p + size - 1) % WORD_LIMIT) == 0 then 0 else VirtAt(base, occupied, p)
  }

  /** An arena that fits in the address space, away from address 0. */
  ghost predicate Mapped(base: nat, occupied: nat) {
    0 < base && base + occupied < WORD_LIMIT
  }

  /** The last byte of the block is found in the arena only because its address wraps. */
  predicate PtrWraps(occupied: nat, ptr: nat, size: nat) {
    0 < ptr <= occupied && WORD_LIMIT < ptr + size - 1 <= WORD_LIMIT + occupied
  }

  /** A pointer is translated exactly when all of its block lies in the occupied part, for
      every pointer and every size that do not wrap into it; and only for those. */
  lemma {:induction false} RealPtrIff(base: nat, occupied: nat, ptr: nat, size: nat)
    requires Mapped(base, occupied) && ptr < WORD_LIMIT && size < WORD_LIMIT
    ensures (RealPtr(base, occupied, ptr, size) != 0 <==> 0 < size && 0 < ptr && ptr - 1 + size <= occupied) <==>
            !PtrWraps(occupied, ptr, size)
    ensures RealPtr(base, occupied, ptr, size) != 0 ==> RealPtr(base, occupied, ptr, size) == base + ptr - 1
  {
    assert (ptr + size - 1) % WORD_LIMIT == if size == 0 && ptr == 0 then WORD_LIMIT - 1
                                            else if ptr + size - 1 < WORD_LIMIT then ptr + size - 1
                                                else ptr + size - 1 - WORD_LIMIT;
  }

  predicate AddressWraps(base: nat, occupied: nat, p: nat, size: nat) {
    base <= p < base + occupied && WORD_LIMIT + base <= p + size - 1 < WORD_LIMIT + base + occupied
  }

  lemma {:induction false} VirtPtrIff(base: nat, occupied: nat, p: nat, size: nat)
    requires Mapped(base, occupied) && p < WORD_LIMIT && size < WORD_LIMIT
    ensures (VirtPtr(base, occupied, p, size) != 0 <==> 0 < size && base <= p && p + size <= base + occupied) <==>
            !AddressWraps(base, occupied, p, size)
    ensures VirtPtr(base, occupied, p, size) != 0 ==> VirtPtr(base, occupied, p, size) == p - base + 1
  {
    assert (p + size - 1) % WORD_LIMIT == if size == 0 && p == 0 then WORD_LIMIT - 1
                                          else if p + size - 1 < WORD_LIMIT then p + size - 1
                                              else p + size - 1 - WORD_LIMIT;
  }

  lemma {:induction false} VirtPtrInside(base: nat, occupied: nat, p: nat, size: nat)
    requires Mapped(base, occupied) && 0 < size && base <= p && p + size <= base + occupied
    ensures VirtPtr(base, occupied, p, size) == p - base + 1
  {
    VirtPtrIff(base, occupied, p, size);
  }

  /** A size that wraps around gets a block translated that is not there. */
  lemma {:induction false} WrappedSizePasses(base: nat, occupied: nat, ptr: nat)
    requires Mapped(base, occupied) && 1 < ptr <= occupied
    ensures RealPtr(base, occupied, ptr, WORD_LIMIT - ptr + 2) == base + ptr - 1
  {
  }

  /** A pointer handed from one mapping to another addresses the same bytes of the file,
      wherever the two are mapped, and still does when the arena has grown. */
  lemma {:induction false} SameBytesElsewhere(base: nat, occupied: nat, base': nat, occupied': nat, p: nat, size: nat)
    requires Mapped(base, occupied) && Mapped(base', occupied') && occupied <= occupied' && p < WORD_LIMIT
    requires size < WORD_LIMIT
    requires VirtPtr(base, occupied, p, size) != 0 && !AddressWraps(base, occupied, p, size)
    ensures RealPtr(base', occupied', VirtPtr(base, occupied, p, size), size) - base' == p - base
    ensures p - base + size <= occupied
  {
    VirtPtrIff(base, occupied, p, size);
    RealPtrIff(base', occupied', VirtPtr(base, occupied, p, size), size);
  }

  // ---------- the arena ----------

  const INITIAL_CAPACITY: nat := 1024

  /** The file behind a mapping, and how much of it is handed out. */
  datatype Arena = Arena(file: seq<Byte>, occupied: nat)

  ghost predicate Valid(a: Arena) {
    0 < |a.file| && a.occupied <= |a.file|
  }

  /** The size after doubling as often as needed. */
  function Grown(size: nat, need: nat): (r: nat)
    requires size > 0
    ensures r >= need && r >= size && (r == size || r < 2 * need)
    decreases if need > size then need - size else 0
  {
    if need > size then Grown(2 * size, need) else size
  }

  /** `gh_fdmem_new`: the block starts at the old `occupied`. */
  function Alloc(a: Arena, size: nat): (r: Arena)
    requires Valid(a)
    ensures Valid(r) && r.occupied == a.occupied + size && |a.file| <= |r.file| && r.file[..|a.file|] == a.file
  {
    var capacity := Grown(|a.file|, a.occupied + size);
    Arena(a.file + Zeros(capacity - |a.file|), a.occupied + size)
  }

  /** The arena of a new call frame. */
  function Empty(): (a: Arena)
    ensures Valid(a) && a.occupied == 0 && forall b | b in a.file :: b == 0
  {
    Arena(Zeros(INITIAL_CAPACITY), 0)
  }

  // ---------- values ----------

  type Word = n: nat | n < WORD_LIMIT

  type Int32 = i: int | -0x8000_0000 <= i < 0x8000_0000

  /** A Lua value; a double is its bit pattern. */
  datatype Variant = Nil | Int(i: Int32) | Double(bits: Word) | String(data: seq<Byte>)

  const HEADER: nat := 16

  function SizeOf(v: Variant): (n: nat)
    ensures n >= HEADER
  {
    if v.String? then HEADER + |v.data| else HEADER
  }

  ghost predicate Sized(v: Variant) {
    v.String? ==> |v.data| < WORD_LIMIT
  }

  const NARROW: nat := 4

  function Tag(v: Variant): nat {
    match v
    case Nil => 0
    case Int(_) => 1
    case Double(_) => 2
    case String(_) => 3
  }

  function IntWord(i: Int32): nat {
    if i < 0 then i + 0x1_0000_0000 else i
  }

  function WordInt(n: nat): Int32
    requires n < 0x1_0000_0000
  {
    if n >= 0x8000_0000 then n - 0x1_0000_0000 else n
  }

  /** What `strncpy` makes of a string: zeros from the first zero on. */
  function Padded(s: seq<Byte>): (r: seq<Byte>)
    ensures |r| == |s|
  {
    if s == [] then [] else if s[0] == 0 then Zeros(|s|) else [s[0]] + Padded(s[1..])
  }

  /** The string survives if and only if nothing but zeros follows a zero. */
  lemma {:induction false} PaddedIff(s: seq<Byte>)
    ensures Padded(s) == s <==> forall i, j | 0 <= i < j < |s| :: s[i] == 0 ==> s[j] == 0
  {
    if s != [] {
      PaddedIff(s[1..]);
      if s[0] == 0 {
        if Padded(s) == s {
          assert forall j | 0 <= j < |s| :: s[j] == Zeros(|s|)[j];
        }
        if forall i, j | 0 <= i < j < |s| :: s[i] == 0 ==> s[j] == 0 {
          assert forall j | 0 <= j < |s| :: j > 0 ==> s[j] == 0;
          assert Padded(s) == s;
        }
      } else {
        assert s == [s[0]] + s[1..];
        if Padded(s) == s {
          assert Padded(s[1..]) == Padded(s)[1..] == s[1..];
          forall i, j | 0 <= i < j < |s| ensures s[i] == 0 ==> s[j] == 0 {
            if i > 0 { assert s[1..][i - 1] == s[i] && s[1..][j - 1] == s[j]; }
          }
        }
        if forall i, j | 0 <= i < j < |s| :: s[i] == 0 ==> s[j] == 0 {
          forall i, j | 0 <= i < j < |s[1..]| ensures s[1..][i] == 0 ==> s[1..][j] == 0 {
            assert s[1..][i] == s[i + 1] && s[1..][j] == s[j + 1];
          }
        }
      }
    }
  }

  /** What the other side gets to see of a value. */
  function Seen(v: Variant): (r: Variant)
    ensures Sized(v) ==> Sized(r)
    ensures SizeOf(r) == SizeOf(v)
  {
    if v.String? then String(Padded(v.data)) else v
  }

  /** The field writes that store a value at an offset. */
  function Write(file: seq<Byte>, at: nat, v: Variant): (r: seq<Byte>)
    requires at + SizeOf(v) <= |file|
    ensures |r| == |file|
    ensures forall i | 0 <= i < |file| && !(at <= i < at + SizeOf(v)) :: r[i] == file[i]
  {
    var tagged := Splice(file, at, FromWord(Tag(v), NARROW));
    match v
    case Nil => tagged
    case Int(i) => Splice(tagged, at + WORD_SIZE, FromWord(IntWord(i), NARROW))
    case Double(bits) => Splice(tagged, at + WORD_SIZE, FromWord(bits, WORD_SIZE))
    case String(data) => Splice(Splice(tagged, at + WORD_SIZE, FromWord(|data|, WORD_SIZE)), at + HEADER, Padded(data))
  }

  function Field(file: seq<Byte>, at: nat, n: nat): nat
    requires at + n <= |file|
  {
    ToWord(file[at..at + n])
  }

  /** The value stored at an offset, if there is one. A string that passes the end of the file is
      none here, although the code would hand it out (see `StringInsideIff`). */
  function Read(file: seq<Byte>, at: nat): Option<Variant> {
    if at + HEADER > |file| then None
    else
      var tag := Field(file, at, NARROW);
      if tag == 0 then Some(Nil)
      else if tag == 1 then
        FieldBound(file, at + WORD_SIZE, NARROW);
        NarrowLimit();
        Some(Int(WordInt(Field(file, at + WORD_SIZE, NARROW))))
      else if tag == 2 then
        FieldBound(file, at + WORD_SIZE, WORD_SIZE);
        WordLimitIsPower();
        Some(Double(Field(file, at + WORD_SIZE, WORD_SIZE)))
      else if tag == 3 then
        var len := Field(file, at + WORD_SIZE, WORD_SIZE);
        if at + HEADER + len > |file| then None else Some(String(file[at + HEADER..at + HEADER + len]))
      else None
  }

  lemma {:induction false} FieldBound(file: seq<Byte>, at: nat, n: nat)
    requires at + n <= |file|
    ensures Field(file, at, n) < Pow256(n)
  {
    ToWordBound(file[at..at + n]);
  }

  lemma {:induction false} NarrowLimit()
    ensures Pow256(NARROW) == 0x1_0000_0000
  {
  }

  lemma {:induction false} SplicedField(file: seq<Byte>, at: nat, n: nat, k: nat)
    requires at + k <= |file| && n < Pow256(k)
    ensures Field(Splice(file, at, FromWord(n, k)), at, k) == n
  {
    WordRoundTrip(n, k);
    assert Splice(file, at, FromWord(n, k))[at..at + k] == FromWord(n, k);
  }

  /** What is written is what is read, but for the end of a string behind a zero. */
  lemma {:induction false} ReadWrite(file: seq<Byte>, at: nat, v: Variant)
    requires at + SizeOf(v) <= |file| && Sized(v)
    ensures Read(Write(file, at, v), at) == Some(Seen(v))
  {
    hide FromWord, ToWord, Pow256, Padded;
    NarrowLimit();
    WordLimitIsPower();
    var tagged := Splice(file, at, FromWord(Tag(v), NARROW));
    SplicedField(file, at, Tag(v), NARROW);
    var r := Write(file, at, v);
    assert r[at..at + NARROW] == tagged[at..at + NARROW];
    match v
    case Nil =>
    case Int(i) => SplicedField(tagged, at + WORD_SIZE, IntWord(i), NARROW);
    case Double(bits) => SplicedField(tagged, at + WORD_SIZE, bits, WORD_SIZE);
    case String(data) =>
      SplicedField(tagged, at + WORD_SIZE, |data|, WORD_SIZE);
      var sized := Splice(tagged, at + WORD_SIZE, FromWord(|data|, WORD_SIZE));
      assert r[at + WORD_SIZE..at + WORD_SIZE + WORD_SIZE] == sized[at + WORD_SIZE..at + WORD_SIZE + WORD_SIZE];
      assert r[at + HEADER..at + HEADER + |data|] == Padded(data);
  }

  /** A value depends on its own bytes only. */
  lemma {:induction false} ReadElsewhere(file: seq<Byte>, file': seq<Byte>, at: nat, v: Variant)
    requires Read(file, at) == Some(v) && at + SizeOf(v) <= |file'|
    requires forall i | at <= i < at + SizeOf(v) :: i < |file| && file'[i] == file[i]
    ensures Read(file', at) == Some(v)
  {
    assert file'[at..at + NARROW] == file[at..at + NARROW];
    assert file'[at + WORD_SIZE..at + WORD_SIZE + NARROW] == file[at + WORD_SIZE..at + WORD_SIZE + NARROW];
    assert file'[at + WORD_SIZE..at + WORD_SIZE + WORD_SIZE] == file[at + WORD_SIZE..at + WORD_SIZE + WORD_SIZE];
    if v.String? {
      assert file'[at + HEADER..at + HEADER + |v.data|] == file[at + HEADER..at + HEADER + |v.data|];
    }
  }

  // ---------- call frames ----------

  const MAX_PARAMS: nat := 16

  /** The host's side of a Lua call: the arena, and the virtual pointers of the parameters. */
  datatype CallFrame = CallFrame(arena: Arena, ptrs: seq<nat>)

  datatype Pushed = Pushed(ok: bool, frame: CallFrame)

  /** `gh_thread_callframe_int` and its like: the block is handed out and filled before
      the number of parameters is looked at. */
  function Push(frame: CallFrame, v: Variant): (r: Pushed)
    requires Valid(frame.arena)
    ensures Valid(r.frame.arena)
  {
    var at, arena := frame.arena.occupied, Alloc(frame.arena, SizeOf(v));
    var filled := arena.(file := Write(arena.file, at, v));
    if |frame.ptrs| + 1 > MAX_PARAMS then Pushed(false, frame.(arena := filled))
    else Pushed(true, CallFrame(filled, frame.ptrs + [at + 1]))
  }

  function PushAll(frame: CallFrame, vs: seq<Variant>): (r: CallFrame)
    requires Valid(frame.arena)
    ensures Valid(r.arena)
    decreases |vs|
  {
    if vs == [] then frame else Push(PushAll(frame, vs[..|vs| - 1]), vs[|vs| - 1]).frame
  }

  /** The block of parameter `i` is inside the arena and holds a value. */
  ghost predicate Holds(frame: CallFrame, i: nat, v: Variant)
    requires i < |frame.ptrs|
  {
    0 < frame.ptrs[i] && frame.ptrs[i] - 1 + SizeOf(v) <= frame.arena.occupied
        && Read(frame.arena.file, frame.ptrs[i] - 1) == Some(v)
  }

  ghost predicate HoldsAll(frame: CallFrame, vs: seq<Variant>) {
    |frame.ptrs| == |vs| && Valid(frame.arena) && forall i | 0 <= i < |vs| :: Holds(frame, i, vs[i])
  }

  /** No two blocks share a byte. */
  ghost predicate Apart(frame: CallFrame, vs: seq<Variant>)
    requires |vs| == |frame.ptrs|
  {
    && (forall i, j | 0 <= i < j < |vs| :: frame.ptrs[i] + SizeOf(vs[i]) <= frame.ptrs[j])
    && (forall i | 0 <= i < |vs| :: frame.ptrs[i] - 1 + SizeOf(vs[i]) <= frame.arena.occupied)
  }

  function SeenAll(vs: seq<Variant>): (r: seq<Variant>)
    ensures |r| == |vs| && forall i | 0 <= i < |vs| :: r[i] == Seen(vs[i])
  {
    seq(|vs|, i requires 0 <= i < |vs| => Seen(vs[i]))
  }

  ghost predicate AllSized(vs: seq<Variant>) {
    forall i | 0 <= i < |vs| :: Sized(vs[i])
  }

  lemma {:induction false} PushHolds(frame: CallFrame, vs: seq<Variant>, v: Variant)
    requires HoldsAll(frame, SeenAll(vs)) && Apart(frame, vs) && Sized(v) && |vs| < MAX_PARAMS
    ensures var r := Push(frame, v); r.ok && HoldsAll(r.frame, SeenAll(vs + [v])) && Apart(r.frame, vs + [v])
  {
    hide Read, Write, Seen;
    var r := Push(frame, v).frame;
    var arena := Alloc(frame.arena, SizeOf(v));
    var at := frame.arena.occupied;
    ReadWrite(arena.file, at, v);
    forall i | 0 <= i < |vs| + 1 ensures Holds(r, i, SeenAll(vs + [v])[i]) {
      if i < |vs| {
        assert Holds(frame, i, SeenAll(vs)[i]);
        forall k | frame.ptrs[i] - 1 <= k < frame.ptrs[i] - 1 + SizeOf(Seen(vs[i])) ensures k < |frame.arena.file|
          && r.arena.file[k] == frame.arena.file[k] {
          assert arena.file[..|frame.arena.file|][k] == arena.file[k];
        }
        ReadElsewhere(frame.arena.file, r.arena.file, frame.ptrs[i] - 1, Seen(vs[i]));
      }
    }
  }

  lemma {:induction false} PushAllHolds(vs: seq<Variant>)
    requires AllSized(vs) && |vs| <= MAX_PARAMS
    ensures var f := PushAll(CallFrame(Empty(), []), vs); HoldsAll(f, SeenAll(vs)) && |f.ptrs| == |vs| && Apart(f, vs)
    decreases |vs|
  {
    hide Push, Holds, Apart, Empty;
    if vs == [] {
      NothingPushed();
    } else {
      var last := |vs| - 1;
      PushAllHolds(vs[..last]);
      PushHolds(PushAll(CallFrame(Empty(), []), vs[..last]), vs[..last], vs[last]);
      assert vs[..last] + [vs[last]] == vs;
    }
  }

  lemma {:induction false} NothingPushed()
    ensures var f := CallFrame(Empty(), []); HoldsAll(f, SeenAll([])) && Apart(f, [])
  {
  }

  /** The parameters of a call message: unused places hold 0. */
  function Params(frame: CallFrame): (ps: seq<nat>)
    requires |frame.ptrs| <= MAX_PARAMS
    ensures |ps| == MAX_PARAMS
  {
    frame.ptrs + seq(MAX_PARAMS - |frame.ptrs|, _ => 0)
  }

  /** The parameter loop of `lua_callfunction`, in the subjail's mapping at `base`: it
      ends at the first 0, and checks only the first byte of each value. */
  function Received(file: seq<Byte>, base: nat, occupied: nat, params: seq<nat>): Option<seq<Variant>>
    decreases |params|
  {
    if params == [] || params[0] == 0 then Some([])
    else
      var p := RealPtr(base, occupied, params[0], 1);
      if p < base || p == 0 then None
      else
        var v, rest := Read(file, p - base), Received(file, base, occupied, params[1..]);
        if v.None? || rest.None? then None else Some([v.value] + rest.value)
  }

  lemma {:induction false} ReceivedFrom(frame: CallFrame, vs: seq<Variant>, base: nat, i: nat)
    requires HoldsAll(frame, vs) && |vs| <= MAX_PARAMS && i <= |vs| && Mapped(base, frame.arena.occupied)
    ensures Received(frame.arena.file, base, frame.arena.occupied, Params(frame)[i..]) == Some(vs[i..])
    decreases |vs| - i
  {
    hide Read, RealPtr;
    var params := Params(frame)[i..];
    if i < |vs| {
      assert params[0] == frame.ptrs[i] && params[1..] == Params(frame)[i + 1..];
      assert Holds(frame, i, vs[i]);
      RealPtrIff(base, frame.arena.occupied, frame.ptrs[i], 1);
      ReceivedFrom(frame, vs, base, i + 1);
      assert vs[i..] == [vs[i]] + vs[i + 1..];
    } else {
      assert vs[i..] == [];
    }
  }

  /** Wherever the subjail maps the arena, it receives the parameters the host pushed, in
      their order; the blocks do not overlap. */
  lemma {:induction false} ParametersArrive(vs: seq<Variant>, base: nat)
    requires AllSized(vs) && |vs| <= MAX_PARAMS
    requires Mapped(base, PushAll(CallFrame(Empty(), []), vs).arena.occupied)
    ensures var f := PushAll(CallFrame(Empty(), []), vs);
            && |f.ptrs| == |vs| && Apart(f, vs)
            && Received(f.arena.file, base, f.arena.occupied, Params(f)) == Some(SeenAll(vs))
  {
    hide PushAll, Received, HoldsAll;
    PushAllHolds(vs);
    var f := PushAll(CallFrame(Empty(), []), vs);
    ReceivedFrom(f, SeenAll(vs), base, 0);
    assert Params(f)[0..] == Params(f) && SeenAll(vs)[0..] == SeenAll(vs);
  }

  // ---------- the way back ----------

  /** What a Lua function can return. */
  datatype LuaValue = LuaNumber(bits: Word) | LuaString(data: seq<Byte>) | LuaOther

  /** What `lua_callfunction_getreturn` makes of it: a number is always a double. */
  function Stored(l: LuaValue): Variant {
    match l
    case LuaNumber(bits) => Double(bits)
    case LuaString(data) => String(data)
    case LuaOther => Nil
  }

  /** `lua_callfunction_getreturn`: the arena with the value, whose block starts at the
      old `occupied`. */
  function Return(arena: Arena, v: Variant): (r: Arena)
    requires Valid(arena)
    ensures Valid(r)
  {
    var size := if v.String? then SizeOf(v) + 1 else SizeOf(v);
    var r := Alloc(arena, size);
    var file := Write(r.file, arena.occupied, v);
    r.(file := if v.String? then Splice(file, arena.occupied + SizeOf(v), [0]) else file)
  }

  /** `gh_fdmem_sync`: the new mapping takes the whole file for occupied. */
  function Sync(arena: Arena): (r: Arena)
    requires Valid(arena)
    ensures Valid(r)
  {
    arena.(occupied := |arena.file|)
  }

  /** `gh_thread_callframe_loadreturnvalue` */
  function ReturnValue(arena: Arena, base: nat, ptr: nat): Option<Variant> {
    var p := RealPtr(base, arena.occupied, ptr, HEADER);
    if p == 0 || p < base then None else Read(arena.file, p - base)
  }

  /** The pointer the subjail sends refers, in the mapping the host makes afterwards, to
      the value the function returned; the parameters are still there. */
  lemma {:induction false} ResultComesBack(frame: CallFrame, vs: seq<Variant>, v: Variant, subBase: nat, hostBase: nat)
    requires HoldsAll(frame, vs) && Sized(v)
    requires var r := Return(frame.arena, v); Mapped(subBase, |r.file|) && Mapped(hostBase, |r.file|)
    ensures var r := Return(frame.arena, v);
            var size := r.occupied - frame.arena.occupied;
            var ptr := VirtPtr(subBase, r.occupied, subBase + frame.arena.occupied, size);
            && ptr == frame.arena.occupied + 1
            && ReturnValue(Sync(r), hostBase, ptr) == Some(Seen(v))
            && HoldsAll(CallFrame(Sync(r), frame.ptrs), vs)
  {
    hide Read, Write, Seen, VirtPtr, RealPtr;
    var r := Return(frame.arena, v);
    var arena := Alloc(frame.arena, if v.String? then SizeOf(v) + 1 else SizeOf(v));
    var at := frame.arena.occupied;
    var written := Write(arena.file, at, v);
    VirtPtrIff(subBase, r.occupied, subBase + at, r.occupied - at);
    RealPtrIff(hostBase, |r.file|, at + 1, HEADER);
    ReadWrite(arena.file, at, v);
    ReadElsewhere(written, r.file, at, Seen(v));
    forall i | 0 <= i < |vs| ensures Holds(CallFrame(Sync(r), frame.ptrs), i, vs[i]) {
      assert Holds(frame, i, vs[i]);
      forall k | frame.ptrs[i] - 1 <= k < frame.ptrs[i] - 1 + SizeOf(vs[i]) ensures k < |frame.arena.file|
        && r.file[k] == frame.arena.file[k] {
        assert arena.file[..|frame.arena.file|][k] == arena.file[k];
      }
      ReadElsewhere(frame.arena.file, r.file, frame.ptrs[i] - 1, vs[i]);
    }
  }

  // `gh_thread_callframe_getint`, `_getdouble` and `_getlstring`, on the value that was loaded;
  // the last one for strings that lie in the mapping

  function GetInt(v: Option<Variant>): Option<Int32> {
    if v.Some? && v.value.Int? then Some(v.value.i) else None
  }

  function GetDouble(v: Option<Variant>): Option<Word> {
    if v.Some? && v.value.Double? then Some(v.value.bits) else None
  }

  function GetLString(v: Option<Variant>): Option<seq<Byte>> {
    if v.Some? && v.value.String? then Some(v.value.data) else None
  }

  /** Of what a Lua function returned, a number is found as a double and a string as a string;
      an integer is never found. */
  lemma {:induction false} NoIntegerIsReturned(frame: CallFrame, vs: seq<Variant>, l: LuaValue, subBase: nat,
                                               hostBase: nat)
    requires HoldsAll(frame, vs) && Sized(Stored(l))
    requires var r := Return(frame.arena, Stored(l)); Mapped(subBase, |r.file|) && Mapped(hostBase, |r.file|)
    ensures var r := Return(frame.arena, Stored(l));
            var ptr := VirtPtr(subBase, r.occupied, subBase + frame.arena.occupied, r.occupied - frame.arena.occupied);
            var found := ReturnValue(Sync(r), hostBase, ptr);
            && GetInt(found) == None
            && GetDouble(found) == (if l.LuaNumber? then Some(l.bits) else None)
            && GetLString(found) == if l.LuaString? then Some(Padded(l.data)) else None
  {
    hide Return, ReturnValue, VirtPtr, Sync, HoldsAll;
    ResultComesBack(frame, vs, Stored(l), subBase, hostBase);
  }

  /** What `gh_thread_callframe_getlstring` hands out: where the text starts, and the length that
      stands in the value, which the subjail has written and nobody checks. */
  datatype Stretch = Stretch(start: nat, length: nat)

  function HandedOut(file: seq<Byte>, at: nat): Option<Stretch>
    requires at + HEADER <= |file|
  {
    if Field(file, at, NARROW) == Tag(String([])) then Some(Stretch(at + HEADER,
      Field(file, at + WORD_SIZE, WORD_SIZE))) else None
  }

  /** The string lies in the mapping exactly when the length is no more than what is left of the
      file. Only then does the model speak of it; the code hands it out in any case. */
  lemma {:induction false} StringInsideIff(arena: Arena, base: nat, ptr: nat)
    requires Valid(arena) && arena.occupied == |arena.file| && Mapped(base, |arena.file|) && 0 < ptr
    requires ptr - 1 + HEADER <= |arena.file|
    ensures var handed, found := HandedOut(arena.file, ptr - 1), GetLString(ReturnValue(arena, base, ptr));
            && (found.Some? <==> handed.Some? && handed.value.start + handed.value.length <= |arena.file|)
            && (found.Some? ==> found.value == arena.file[handed.value.start..handed.value.start + handed.value.length])
  {
    hide RealPtr, Read, Field, HandedOut;
    RealPtrIff(base, |arena.file|, ptr, HEADER);
    assert RealPtr(base, |arena.file|, ptr, HEADER) - base == ptr - 1;
    ReadsString(arena.file, ptr - 1);
  }

  lemma {:induction false} ReadsString(file: seq<Byte>, at: nat)
    requires at + HEADER <= |file|
    ensures var handed, found := HandedOut(file, at), GetLString(Read(file, at));
            && (found.Some? <==> handed.Some? && handed.value.start + handed.value.length <= |file|)
            && (found.Some? ==> found.value == file[handed.value.start..handed.value.start + handed.value.length])
  {
    hide Field;
  }

  /** `gh_thread_callframe_getstring`, on a value at an offset: whether it says it found a string, or
      nothing where it would read outside of the mapping. A text that ends in a zero is refused. */
  function GetString(arena: Arena, base: nat, at: nat): Option<bool>
    requires Valid(arena) && at + HEADER <= |arena.file| && Mapped(base, arena.occupied)
  {
    var s := HandedOut(arena.file, at);
    if s.None? then Some(false)
    else
      var end := s.value.start + s.value.length;
      if end > |arena.file| then None
      else if arena.file[end - 1] == 0 then Some(false)
      else if base + end >= WORD_LIMIT || VirtPtr(base, arena.occupied, base + end, 1) == 0 then Some(false)
      else
        VirtPtrIff(base, arena.occupied, base + end, 1);
        Some(arena.file[end] == 0)
  }

  /** Of whatever the memory holds, as far as it can be read: a string is found exactly if it does
      not end in a zero, and a zero in the occupied part follows it. */
  lemma {:induction false} ZeroBehindIff(arena: Arena, base: nat, at: nat)
    requires Valid(arena) && at + HEADER <= |arena.file| && Mapped(base, arena.occupied)
    ensures var s, r := HandedOut(arena.file, at), GetString(arena, base, at);
            && (s.None? ==> r == Some(false))
            && (s.Some? ==>
                  var end := s.value.start + s.value.length;
                  if end > |arena.file| then r == None
                  else r == Some(arena.file[end - 1] != 0 && end < arena.occupied && arena.file[end] == 0))
  {
    var s := HandedOut(arena.file, at);
    if s.Some? {
      var end := s.value.start + s.value.length;
      if end <= |arena.file| && base + end < WORD_LIMIT {
        VirtPtrIff(base, arena.occupied, base + end, 1);
      }
    }
  }

  lemma {:induction false} PaddedEnd(s: seq<Byte>)
    requires s != []
    ensures Padded(s)[|s| - 1] == 0 <==> 0 in s
  {
    if s[0] != 0 {
      assert s == [s[0]] + s[1..];
      if |s| > 1 {
        PaddedEnd(s[1..]);
      }
    }
  }

  lemma {:induction false} ZeroWordEnd(bs: seq<Byte>)
    requires ToWord(bs) == 0 && bs != []
    ensures bs[|bs| - 1] == 0
  {
    if |bs| > 1 {
      ZeroWordEnd(bs[1..]);
    }
  }

  /** Of what a Lua function returned, `getstring` finds exactly the strings that are not empty and
      have no zero in them; for an empty one it looks at the last byte of the length. */
  lemma {:induction false} StringIsFoundIff(frame: CallFrame, vs: seq<Variant>, l: LuaValue, subBase: nat,
                                            hostBase: nat)
    requires HoldsAll(frame, vs) && Sized(Stored(l))
    requires var r := Return(frame.arena, Stored(l)); Mapped(subBase, |r.file|) && Mapped(hostBase, |r.file|)
    ensures var r := Return(frame.arena, Stored(l));
            && frame.arena.occupied + HEADER <= |r.file|
            && GetString(Sync(r), hostBase, frame.arena.occupied) == Some(l.LuaString? && l.data != [] && 0 !in l.data)
  {
    var r, at := Return(frame.arena, Stored(l)), frame.arena.occupied;
    ResultComesBack(frame, vs, Stored(l), subBase, hostBase);
    RealPtrIff(hostBase, |r.file|, at + 1, HEADER);
    assert at + HEADER <= |r.file| && Read(r.file, at) == Some(Seen(Stored(l)));
    hide Return, ReturnValue, RealPtr, HoldsAll, Padded, Read, GetString;
    if l.LuaString? {
      EndsInZero(frame.arena, l.data);
      GetStringFinds(Sync(r), hostBase, at, l.data);
    } else {
      GetStringRefuses(Sync(r), hostBase, at);
    }
  }

  lemma {:induction false} GetStringRefuses(arena: Arena, base: nat, at: nat)
    requires Valid(arena) && at + HEADER <= |arena.file| && Mapped(base, arena.occupied)
    requires Read(arena.file, at).Some? && !Read(arena.file, at).value.String?
    ensures GetString(arena, base, at) == Some(false)
  {
    hide Field;
  }

  lemma {:induction false} GetStringFinds(arena: Arena, base: nat, at: nat, data: seq<Byte>)
    requires Valid(arena) && arena.occupied == |arena.file| && Mapped(base, arena.occupied)
    requires at + HEADER + |data| < |arena.file| && arena.file[at + HEADER + |data|] == 0
    requires Read(arena.file, at) == Some(String(Padded(data)))
    ensures GetString(arena, base, at) == Some(data != [] && 0 !in data)
  {
    hide Padded, Memory.ToWord;
    var file, end := arena.file, at + HEADER + |data|;
    assert file[at + HEADER..end] == Padded(data);
    VirtPtrIff(base, |file|, base + end, 1);
    hide Memory.FromWord, VirtPtr;
    if data == [] {
      var length := file[at + WORD_SIZE..at + WORD_SIZE + WORD_SIZE];
      assert ToWord(length) == 0;
      ZeroWordEnd(length);
      assert length[WORD_SIZE - 1] == file[end - 1];
    } else {
      PaddedEnd(data);
      assert file[end - 1] == file[at + HEADER..end][|data| - 1];
    }
  }

  lemma {:induction false} EndsInZero(arena: Arena, data: seq<Byte>)
    requires Valid(arena)
    ensures var r, end := Return(arena, String(data)), arena.occupied + HEADER + |data|;
            end < |r.file| && r.file[end] == 0
  {
    hide Write;
  }

  // ---------- the two mappings ----------

  /** The memory file behind a call. */
  class SharedFile {
    var bytes: seq<Byte>

    constructor ()
      ensures bytes == []
    {
      bytes := [];
    }
  }

  class Mapping {
    const file: SharedFile
    var data: nat
    var size: nat
    var occupied: nat

    ghost function View(): Arena
      reads this, file
    {
      Arena(file.bytes, occupied)
    }

    /** The mapping covers the file, and the addresses exist. */
    ghost predicate Ready()
      reads this, file
    {
      size == |file.bytes| && Valid(View())
    }

    /** `gh_fdmem_ctor`, at the address the system chooses. */
    constructor Create(data: nat, file: SharedFile)
      modifies file
      ensures this.file == file && Ready() && View() == Empty() && this.data == data
    {
      this.file, this.data, size, occupied := file, data, INITIAL_CAPACITY, 0;
      new;
      file.bytes := Zeros(INITIAL_CAPACITY);
    }

    /** `gh_fdmem_ctorfdo`: another mapping of the same file. */
    constructor Attach(data: nat, file: SharedFile, occupied: nat)
      requires 0 < |file.bytes| && occupied <= |file.bytes|
      ensures this.file == file && Ready() && View() == Arena(file.bytes, occupied) && this.data == data
    {
      this.file, this.data, size, this.occupied := file, data, |file.bytes|, occupied;
    }

    /** `gh_fdmem_new`; the file grows where it is mapped. */
    method New(n: nat) returns (p: nat)
      requires Ready()
      modifies this, file
      ensures Ready() && data == old(data) && View() == Alloc(old(View()), n) && p == data + old(occupied)
    {
      if occupied + n > size {
        var newSize := size;
        while occupied + n > newSize
          invariant newSize > 0 && Grown(newSize, occupied + n) == Grown(size, occupied + n)
          decreases occupied + n - newSize
        {
          newSize := newSize * 2;
        }
        file.bytes := file.bytes + Zeros(newSize - size);
        size := newSize;
      } else {
        assert file.bytes + Zeros(0) == file.bytes;
      }
      p := data + occupied;
      occupied := occupied + n;
    }

    /** The writes through the pointer that `New` returned. */
    method Fill(p: nat, v: Variant)
      requires Ready() && data <= p && p - data + SizeOf(v) <= size
      modifies file
      ensures Ready() && file.bytes == Write(old(file.bytes), p - data, v)
    {
      file.bytes := Write(file.bytes, p - data, v);
    }

    /** `gh_fdmem_sync`, with the address of the new mapping. */
    method SyncTo(data': nat)
      requires Ready()
      modifies this
      ensures Ready() && View() == Sync(old(View())) && data == data'
    {
      data, size, occupied := data', |file.bytes|, |file.bytes|;
    }
  }

  class HostFrame {
    const mem: Mapping
    var ptrs: seq<nat>

    ghost predicate Ready()
      reads this, mem, mem.file
    {
      mem.Ready() && |ptrs| <= MAX_PARAMS && Mapped(mem.data, |mem.file.bytes|)
    }

    ghost function View(): CallFrame
      reads this, mem, mem.file
    {
      CallFrame(mem.View(), ptrs)
    }

    constructor (mem: Mapping)
      ensures this.mem == mem && ptrs == []
    {
      this.mem, ptrs := mem, [];
    }

    /** `gh_thread_callframe_int`, `_double` and `_lstring`, when the arena grows where
        there is room for it. */
    method PushParam(v: Variant) returns (ok: bool)
      requires Ready() && !v.Nil?
      requires Mapped(mem.data, |Alloc(mem.View(), SizeOf(v)).file|)
      modifies this, mem, mem.file
      ensures Ready() && Pushed(ok, View()) == Push(old(View()), v)
    {
      hide VirtPtr, Write, SizeOf, Alloc;
      var p := mem.New(SizeOf(v));
      mem.Fill(p, v);
      if |ptrs| + 1 > MAX_PARAMS {
        return false;
      }
      assert VirtPtr(mem.data, mem.occupied, p, SizeOf(v)) ==
        p - mem.data + 1 by { VirtPtrInside(mem.data, mem.occupied, p, SizeOf(v)); }
      var ptr := VirtPtr(mem.data, mem.occupied, p, SizeOf(v));
      ptrs := ptrs + [ptr];
      return true;
    }
  }

  /** The parameter loop of `lua_callfunction` */
  method ReceiveParams(mem: Mapping, params: seq<nat>) returns (values: Option<seq<Variant>>)
    requires mem.Ready() && |params| == MAX_PARAMS
    ensures values == Received(mem.file.bytes, mem.data, mem.occupied, params)
  {
    hide Read, RealPtr, Received, Valid;
    var vs := [];
    var i := 0;
    ghost var file, base, occupied := mem.file.bytes, mem.data, mem.occupied;
    ghost var whole := Received(file, base, occupied, params);
    assert params[0..] == params;
    ThenNothing(whole);
    while i < MAX_PARAMS
      invariant i <= |params| && Then(vs, Received(file, base, occupied, params[i..])) == whole
    {
      var ptr := params[i];
      if ptr == 0 {
        break;
      }
      var p := RealPtr(mem.data, mem.occupied, ptr, 1);
      if p == 0 || p < mem.data {
        ReceiveFails(file, base, occupied, params[i..]);
        return None;
      }
      var v := Read(mem.file.bytes, p - mem.data);
      if v.None? {
        ReceiveFails(file, base, occupied, params[i..]);
        return None;
      }
      ReceiveStep(file, base, occupied, params, i, vs);
      vs := vs + [v.value];
      i := i + 1;
    }
    ReceiveEnds(file, base, occupied, params[i..]);
    assert vs + [] == vs;
    return Some(vs);
  }

  lemma {:induction false} ThenNothing(rest: Option<seq<Variant>>)
    ensures Then([], rest) == rest
  {
    assert rest.Some? ==> [] + rest.value == rest.value;
  }

  lemma {:induction false} ReceiveEnds(file: seq<Byte>, base: nat, occupied: nat, params: seq<nat>)
    requires params == [] || params[0] == 0
    ensures Received(file, base, occupied, params) == Some([])
  {
  }

  lemma {:induction false} ReceiveFails(file: seq<Byte>, base: nat, occupied: nat, params: seq<nat>)
    requires params != [] && params[0] != 0
    requires var p := RealPtr(base, occupied, params[0], 1); p == 0 || p < base || Read(file, p - base).None?
    ensures Received(file, base, occupied, params).None?
  {
    hide Read, RealPtr;
  }

  ghost function Then(vs: seq<Variant>, rest: Option<seq<Variant>>): Option<seq<Variant>> {
    if rest.None? then None else Some(vs + rest.value)
  }

  lemma {:induction false} ReceiveStep(file: seq<Byte>, base: nat, occupied: nat, params: seq<nat>, i: nat,
                                       vs: seq<Variant>)
    requires i < |params| && params[i] != 0
    requires var p := RealPtr(base, occupied, params[i], 1); p != 0 && base <= p && Read(file, p - base).Some?
    ensures Then(vs, Received(file, base, occupied, params[i..])) ==
            Then(vs + [Read(file, RealPtr(base, occupied, params[i], 1) - base).value],
                Received(file, base, occupied, params[i + 1..]))
  {
    hide Read, RealPtr;
    var rest := Received(file, base, occupied, params[i + 1..]);
    assert params[i..][1..] == params[i + 1..] && params[i..][0] == params[i];
    if rest.Some? {
      var v := Read(file, RealPtr(base, occupied, params[i], 1) - base).value;
      assert vs + ([v] + rest.value) == vs + [v] + rest.value;
    }
  }
}
