/** Calls of host functions from a subjail (src/ghost/rpc.c). */
module Rpc {
  import opened Memory

  // ---------- messages, functions and frames ----------

  const MAX_ARGS: nat := 16

  /** Lengths from here on are refused by the system call that reads remote memory. */
  const LENGTH_LIMIT: nat := 0x8000_0000_0000_0000

  /** A piece of the caller's memory. */
  datatype RemoteArg = RemoteArg(addr: nat, size: nat)

  datatype Msg = Msg(name: string, argCount: nat, args: seq<RemoteArg>, ret: RemoteArg)

  /** The fixed part of a message: room for 16 arguments, and sizes that are machine words. */
  ghost predicate WellFormed(msg: Msg) {
    |msg.args| == MAX_ARGS && msg.ret.size < WORD_LIMIT && forall i | 0 <= i < MAX_ARGS :: msg.args[i].size < WORD_LIMIT
  }

  datatype Result = Ok | ReturnSize | MissingFunc | Other(code: int)

  /** What a host function does with its frame. */
  datatype Action = SetReturn(value: seq<Byte>) | SetResult(result: Result)

  /** The registered functions, by index: what each does when called with arguments. */
  type Host = (nat, seq<seq<Byte>>) -> seq<Action>

  /** A piece of the frame's buffer. */
  datatype Slice = Slice(at: nat, size: nat)

  datatype Frame = Frame(callee: nat, buffer: seq<Byte>, args: seq<Slice>, ret: Slice, result: Result)

  // ---------- building a frame ----------

  function Used(msg: Msg): seq<RemoteArg>
    requires |msg.args| == MAX_ARGS
  {
    msg.args[..if msg.argCount > MAX_ARGS then MAX_ARGS else msg.argCount]
  }

  function Total(args: seq<RemoteArg>): nat {
    if args == [] then 0 else Total(args[..|args| - 1]) + args[|args| - 1].size
  }

  /** Room for the return value: none without an address. */
  function RetSize(msg: Msg): nat {
    if msg.ret.addr != 0 then msg.ret.size else 0
  }

  /** The size of the frame's buffer: a sum of machine words, which is one itself. */
  function FrameSize(msg: Msg): (n: nat)
    requires |msg.args| == MAX_ARGS
    ensures n < WORD_LIMIT
  {
    (Total(Used(msg)) + RetSize(msg)) % WORD_LIMIT
  }

  /** The sizes add up to a machine word. */
  predicate NoWrap(msg: Msg)
    requires |msg.args| == MAX_ARGS
  {
    Total(Used(msg)) + RetSize(msg) < WORD_LIMIT
  }

  /** The slices of the arguments, one behind the other; offsets are machine words. */
  function Slices(args: seq<RemoteArg>): (ss: seq<Slice>)
    ensures |ss| == |args|
  {
    if args == [] then []
    else Slices(args[..|args| - 1]) + [Slice(Total(args[..|args| - 1]) % WORD_LIMIT, args[|args| - 1].size)]
  }

  /** The slices of a frame: all empty if there is no buffer. */
  function FrameSlices(msg: Msg): (ss: seq<Slice>)
    requires |msg.args| == MAX_ARGS
    ensures |ss| == |Used(msg)|
  {
    if FrameSize(msg) == 0 then seq(|Used(msg)|, _ => Slice(0, 0)) else Slices(Used(msg))
  }

  function RetSlice(msg: Msg): Slice
    requires |msg.args| == MAX_ARGS
  {
    if FrameSize(msg) != 0 && RetSize(msg) != 0 then Slice(Total(Used(msg)) % WORD_LIMIT, RetSize(msg)) else Slice(0, 0)
  }

  /** What one read of remote memory finds: it stops at the first argument that cannot
      be read. */
  function Gather(mem: Mem, args: seq<RemoteArg>): seq<Byte> {
    if args == [] then []
    else if !Has(mem, args[0].addr, args[0].size) then []
    else Bytes(mem, args[0].addr, args[0].size) + Gather(mem, args[1..])
  }

  /** The length given for the local side: the return size is taken off even when no
      room was made for it, and the difference is a machine word. */
  function LocalLength(msg: Msg): nat
    requires WellFormed(msg)
  {
    (FrameSize(msg) - msg.ret.size) % WORD_LIMIT
  }

  function Min(a: nat, b: nat): nat {
    if a < b then a else b
  }

  /** `Overrun`: bytes would be written behind the end of the buffer. */
  datatype Built = Missing | LargeFrame | ArgCopyFail | Overrun | Ready(frame: Frame)

  function Find(names: seq<string>, name: string): (i: nat)
    ensures i <= |names| && (i < |names| ==> names[i] == name)
    ensures forall j | 0 <= j < i :: names[j] != name
  {
    if names == [] then 0 else if names[0] == name then 0 else 1 + Find(names[1..], name)
  }

  datatype Copy = CopyRefused | CopyOverrun | Copied(buffer: seq<Byte>)

  /** The buffer after the read of remote memory. A short read is not noticed. */
  function CopyIn(msg: Msg, mem: Mem, junk: seq<Byte>): (r: Copy)
    requires WellFormed(msg) && |junk| == FrameSize(msg)
    ensures r.Copied? ==> |r.buffer| == |junk|
  {
    if |junk| == 0 then Copied([])
    else
      var args, size := Used(msg), Total(Used(msg));
      var found, length := Gather(mem, args), LocalLength(msg);
      if length >= LENGTH_LIMIT || (|found| == 0 && Min(length, size) > 0) then CopyRefused
      else if Min(length, |found|) > |junk| then CopyOverrun
      else Copied(Splice(junk, 0, found[..Min(length, |found|)]))
  }

  /** `gh_rpc_newframefrommsg`; `junk` is what the new buffer holds. */
  function Build(names: seq<string>, msg: Msg, mem: Mem, junk: seq<Byte>, limit: nat): Built
    requires WellFormed(msg) && |junk| == FrameSize(msg)
  {
    var i := Find(names, msg.name);
    if i == |names| then Missing
    else if limit != 0 && |junk| > limit then LargeFrame
    else
      match CopyIn(msg, mem, junk)
      case CopyRefused => ArgCopyFail
      case CopyOverrun => Overrun
      case Copied(buffer) => Ready(Frame(i, buffer, FrameSlices(msg), RetSlice(msg), Ok))
  }

  lemma {:induction false} TotalTail(args: seq<RemoteArg>)
    requires args != []
    ensures Total(args) == args[0].size + Total(args[1..])
  {
    if |args| > 1 {
      TotalTail(args[..|args| - 1]);
      assert args[..|args| - 1][1..] == args[1..][..|args| - 2];
    }
  }

  lemma {:induction false} TotalConcat(a: seq<RemoteArg>, b: seq<RemoteArg>)
    ensures Total(a + b) == Total(a) + Total(b)
  {
    if b == [] {
      assert a + b == a;
    } else {
      TotalConcat(a, b[..|b| - 1]);
      assert (a + b)[..|a + b| - 1] == a + b[..|b| - 1];
    }
  }

  lemma {:induction false} GatherLength(mem: Mem, args: seq<RemoteArg>)
    ensures |Gather(mem, args)| <= Total(args)
    ensures Readable(mem, args) ==> |Gather(mem, args)| == Total(args)
    decreases |args|
  {
    if args != [] {
      TotalTail(args);
      GatherLength(mem, args[1..]);
      if Readable(mem, args) {
        assert forall i | 0 <= i < |args[1..]| :: args[1..][i] == args[i + 1];
      }
    }
  }

  ghost predicate Readable(mem: Mem, args: seq<RemoteArg>) {
    forall i | 0 <= i < |args| :: Has(mem, args[i].addr, args[i].size)
  }

  // ---------- the slices tile the buffer ----------

  function Piece(buffer: seq<Byte>, s: Slice): (bs: seq<Byte>)
    requires s.at + s.size <= |buffer|
    ensures |bs| == s.size
  {
    buffer[s.at..s.at + s.size]
  }

  /** Slice `i` starts where the arguments before it end. */
  lemma {:induction false} SliceAt(args: seq<RemoteArg>, i: nat)
    requires i < |args|
    ensures Slices(args)[i] == Slice(Total(args[..i]) % WORD_LIMIT, args[i].size)
    ensures Total(args[..i]) + args[i].size == Total(args[..i + 1]) <= Total(args)
    decreases |args|
  {
    var last := |args| - 1;
    assert args[..i + 1][..i] == args[..i];
    TotalConcat(args[..i + 1], args[i + 1..]);
    assert args[..i + 1] + args[i + 1..] == args;
    if i < last {
      SliceAt(args[..last], i);
      assert args[..last][..i] == args[..i];
    }
  }

  /** As long as the sizes do not wrap, the slices do not overlap, leave no gap, and end where
      the return slice starts. */
  lemma {:induction false} SlicesTile(args: seq<RemoteArg>, i: nat, j: nat)
    requires i < j < |args| && Total(args) < WORD_LIMIT
    ensures var ss := Slices(args);
            ss[0].at == 0 && ss[i].at + ss[i].size <= ss[j].at && ss[j].at + ss[j].size <= Total(args) &&
            ss[i + 1].at == ss[i].at + ss[i].size && ss[|args| - 1].at + ss[|args| - 1].size == Total(args)
  {
    hide Slices, Total;
    SliceIs(args, 0);
    SliceIs(args, i);
    SliceIs(args, i + 1);
    SliceIs(args, j);
    SliceIs(args, |args| - 1);
    TotalConcat(args[..i + 1], args[i + 1..j]);
    assert args[..i + 1] + args[i + 1..j] == args[..j];
    assert args[..|args|] == args;
    assert args[..0] == [] && Total([]) == 0 by { TotalOfNone(); }
  }

  lemma {:induction false} SliceIs(args: seq<RemoteArg>, i: nat)
    requires i < |args| && Total(args) < WORD_LIMIT
    ensures Slices(args)[i] == Slice(Total(args[..i]), args[i].size)
    ensures Total(args[..i]) + args[i].size == Total(args[..i + 1]) <= Total(args)
  {
    SliceAt(args, i);
  }

  /** In a buffer that starts with all that was found, slice `i` holds argument `i`. */
  lemma {:induction false} PieceOfGather(mem: Mem, args: seq<RemoteArg>, i: nat)
    requires i < |args| && Readable(mem, args)
    ensures |Gather(mem, args)| == Total(args) && Total(args[..i]) + args[i].size <= Total(args)
    ensures Gather(mem, args)[Total(args[..i])..Total(args[..i]) + args[i].size] ==
            Bytes(mem, args[i].addr, args[i].size)
    decreases |args|
  {
    hide Slices, Total;
    GatherLength(mem, args);
    SliceAt(args, i);
    var first := Bytes(mem, args[0].addr, args[0].size);
    assert Gather(mem, args) == first + Gather(mem, args[1..]);
    if i == 0 {
      assert args[..0] == [] && Total([]) == 0 by { TotalOfNone(); }
      TakeFirst(first, Gather(mem, args[1..]));
    } else {
      var rest := args[1..];
      assert forall k | 0 <= k < |rest| :: rest[k] == args[k + 1];
      PieceOfGather(mem, rest, i - 1);
      TotalTail(args[..i]);
      assert args[..i][1..] == rest[..i - 1] && rest[i - 1] == args[i];
      SkipFirst(first, Gather(mem, rest), Total(rest[..i - 1]), args[i].size);
    }
  }

  lemma {:induction false} TotalOfNone()
    ensures Total([]) == 0
  {
  }

  lemma {:induction false} TakeFirst(a: seq<Byte>, b: seq<Byte>)
    ensures (a + b)[0..|a|] == a
  {
  }

  lemma {:induction false} SkipFirst(a: seq<Byte>, b: seq<Byte>, at: nat, n: nat)
    requires at + n <= |b|
    ensures (a + b)[|a| + at..|a| + at + n] == b[at..at + n]
  {
  }

  // ---------- calling ----------

  /** A call of a host function in the host itself: its result, and the room for its
      return value. */
  datatype Local = Local(result: Result, ret: seq<Byte>)

  /** `gh_rpcframe_setreturnv` and `gh_rpcframe_setresult` */
  function Act(c: Local, action: Action): (r: Local)
    ensures |r.ret| == |c.ret|
  {
    match action
    case SetResult(result) => c.(result := result)
    case SetReturn(value) =>
      if |c.ret| == 0 then c
      else if |c.ret| < |value| then c.(result := ReturnSize)
      else c.(ret := Splice(c.ret, 0, value))
  }

  function Acts(c: Local, actions: seq<Action>): (r: Local)
    ensures |r.ret| == |c.ret|
    decreases |actions|
  {
    if actions == [] then c else Acts(Act(c, actions[0]), actions[1..])
  }

  function CallLocally(host: Host, callee: nat, args: seq<seq<Byte>>, size: nat): (r: Local)
    ensures |r.ret| == size
  {
    Acts(Local(Ok, Zeros(size)), host(callee, args))
  }

  /** A function that sets its return value once and succeeds leaves that value with
      zeros behind it, if there is room. */
  lemma {:induction false} ValueThenZeros(host: Host, callee: nat, args: seq<seq<Byte>>, size: nat, value: seq<Byte>)
    requires host(callee, args) == [SetReturn(value)] && size > 0
    ensures CallLocally(host, callee, args, size) ==
            if |value| <= size then Local(Ok, value + Zeros(size - |value|)) else Local(ReturnSize, Zeros(size))
  {
    var start := Local(Ok, Zeros(size));
    assert [SetReturn(value)][1..] == [];
    assert Acts(start, [SetReturn(value)]) == Act(start, SetReturn(value));
    if |value| <= size {
      assert Splice(Zeros(size), 0, value) == value + Zeros(size - |value|);
    }
  }

  lemma {:induction false} ActsConcat(c: Local, a: seq<Action>, b: seq<Action>)
    ensures Acts(c, a + b) == Acts(Acts(c, a), b)
    decreases |a|
  {
    if a == [] {
      assert a + b == b;
    } else {
      assert (a + b)[1..] == a[1..] + b;
      ActsConcat(Act(c, a[0]), a[1..], b);
    }
  }

  /** What a function does last counts: a result that it sets is its result; a value goes over the
      start of what was there, and leaves the result as it was, or is a size error if it is too
      large, unless no value is wanted. */
  lemma {:induction false} LastActionCounts(host: Host, other: Host, callee: nat, args: seq<seq<Byte>>, size: nat,
                                            action: Action)
    requires host(callee, args) == other(callee, args) + [action]
    ensures var before, c := CallLocally(other, callee, args, size), CallLocally(host, callee, args, size);
            match action
            case SetResult(result) => c == Local(result, before.ret)
            case SetReturn(value) =>
              if size == 0 then c == before
              else if |value| > size then c == Local(ReturnSize, before.ret)
              else c == Local(before.result, value + before.ret[|value|..])
  {
    var start := Local(Ok, Zeros(size));
    var before := Acts(start, other(callee, args));
    ActsConcat(start, other(callee, args), [action]);
    assert [action][1..] == [];
    assert Acts(before, [action]) == Act(before, action);
    if action.SetReturn? && |action.value| <= size {
      assert Splice(before.ret, 0, action.value) == action.value + before.ret[|action.value|..];
    }
  }

  // ---------- the frame ----------

  /** Slices lie within the buffer, the return slice behind all others. */
  predicate Fits(frame: Frame) {
    && frame.ret.at + frame.ret.size <= |frame.buffer|
    && forall i | 0 <= i < |frame.args| ::
         frame.args[i].at + frame.args[i].size <= |frame.buffer|
             && (frame.ret.size > 0 ==> frame.args[i].at + frame.args[i].size <= frame.ret.at)
  }

  function Arguments(frame: Frame): seq<seq<Byte>>
    requires Fits(frame)
  {
    seq(|frame.args|, i requires 0 <= i < |frame.args| => Piece(frame.buffer, frame.args[i]))
  }

  ghost function Returned(frame: Frame): Local
    requires Fits(frame)
  {
    Local(frame.result, Piece(frame.buffer, frame.ret))
  }

  /** An action as it changes the frame. */
  function ActOn(frame: Frame, action: Action): (r: Frame)
    requires Fits(frame)
    ensures Fits(r) && r.args == frame.args && r.ret == frame.ret && |r.buffer| == |frame.buffer|
  {
    match action
    case SetResult(result) => frame.(result := result)
    case SetReturn(value) =>
      if frame.ret.size == 0 then frame
      else if frame.ret.size < |value| then frame.(result := ReturnSize)
      else frame.(buffer := Splice(frame.buffer, frame.ret.at, value))
  }

  function ActsOn(frame: Frame, actions: seq<Action>): (r: Frame)
    requires Fits(frame)
    ensures Fits(r) && r.args == frame.args && r.ret == frame.ret && |r.buffer| == |frame.buffer|
    decreases |actions|
  {
    if actions == [] then frame else ActsOn(ActOn(frame, actions[0]), actions[1..])
  }

  /** `gh_rpc_callframe` */
  function CallFrame(host: Host, frame: Frame): (r: Frame)
    requires Fits(frame)
    ensures Fits(r) && r.args == frame.args && r.ret == frame.ret
  {
    var cleared := frame.(buffer := Splice(frame.buffer, frame.ret.at, Zeros(frame.ret.size)), result := Ok);
    ActsOn(cleared, host(frame.callee, Arguments(frame)))
  }

  lemma {:induction false} ActIsLocal(frame: Frame, action: Action)
    requires Fits(frame)
    ensures Returned(ActOn(frame, action)) == Act(Returned(frame), action)
  {
  }

  lemma {:induction false} SplicePiece(buffer: seq<Byte>, s: Slice, value: seq<Byte>)
    requires s.at + s.size <= |buffer| && |value| <= s.size
    ensures Piece(Splice(buffer, s.at, value), s) == Splice(Piece(buffer, s), 0, value)
  {
  }

  lemma {:induction false} ActsAreLocal(frame: Frame, actions: seq<Action>)
    requires Fits(frame)
    ensures Returned(ActsOn(frame, actions)) == Acts(Returned(frame), actions)
    decreases |actions|
  {
    hide Fits;
    if actions != [] {
      ActIsLocal(frame, actions[0]);
      ActsAreLocal(ActOn(frame, actions[0]), actions[1..]);
    }
  }

  /** A call through a frame does what a local call with the frame's arguments does. */
  lemma {:induction false} CallFrameIsLocal(host: Host, frame: Frame)
    requires Fits(frame)
    ensures Returned(CallFrame(host, frame)) == CallLocally(host, frame.callee, Arguments(frame), frame.ret.size)
  {
    var zeros := Zeros(frame.ret.size);
    var cleared := frame.(buffer := Splice(frame.buffer, frame.ret.at, zeros), result := Ok);
    SplicePiece(frame.buffer, frame.ret, zeros);
    assert Splice(Piece(frame.buffer, frame.ret), 0, zeros) == zeros;
    ActsAreLocal(cleared, host(frame.callee, Arguments(frame)));
  }

  // ---------- slices within the buffer ----------

  /** Where sizes wrap, the first slice to pass the last machine word starts before it. */
  lemma {:induction false} WrapLeaves(args: seq<RemoteArg>) returns (i: nat)
    requires Total(args) >= WORD_LIMIT && forall j | 0 <= j < |args| :: args[j].size < WORD_LIMIT
    ensures i < |args| && Slices(args)[i].at + Slices(args)[i].size >= WORD_LIMIT
    decreases |args|
  {
    var last := |args| - 1;
    if Total(args[..last]) >= WORD_LIMIT {
      i := WrapLeaves(args[..last]);
      SliceAt(args[..last], i);
      assert args[..last][..i] == args[..i];
      SliceAt(args, i);
    } else {
      i := last;
    }
  }

  /** A frame with a buffer lies within it if and only if the sizes do not wrap. */
  lemma {:induction false} FitsIff(names: seq<string>, msg: Msg, mem: Mem, junk: seq<Byte>, limit: nat)
    requires WellFormed(msg) && |junk| == FrameSize(msg)
    requires Build(names, msg, mem, junk, limit).Ready?
    ensures Fits(Build(names, msg, mem, junk, limit).frame) <==> NoWrap(msg) || FrameSize(msg) == 0
  {
    var args, frame := Used(msg), Build(names, msg, mem, junk, limit).frame;
    if FrameSize(msg) != 0 {
      if NoWrap(msg) {
        forall i | 0 <= i < |args| ensures Slices(args)[i].at + Slices(args)[i].size <= Total(args) {
          SliceIs(args, i);
        }
      } else if Total(args) >= WORD_LIMIT {
        var i := WrapLeaves(args);
        assert frame.args[i] == Slices(args)[i];
      }
    }
  }

  // ---------- when the arguments arrive ----------

  /** The arguments as the caller has them. */
  ghost function RemoteArguments(msg: Msg, mem: Mem): seq<seq<Byte>>
    requires |msg.args| == MAX_ARGS && Readable(mem, Used(msg))
  {
    seq(|Used(msg)|, i requires 0 <= i < |Used(msg)| => Bytes(mem, Used(msg)[i].addr, Used(msg)[i].size))
  }

  /** The frame is there, and each argument slice holds what the caller's memory holds. */
  ghost predicate Arrives(names: seq<string>, msg: Msg, mem: Mem, junk: seq<Byte>, limit: nat)
    requires WellFormed(msg) && |junk| == FrameSize(msg)
  {
    var b := Build(names, msg, mem, junk, limit);
    b.Ready? && Fits(b.frame) && Readable(mem, Used(msg)) && Arguments(b.frame) == RemoteArguments(msg, mem)
  }

  /** The read is given the length of the arguments, or more, and not too much for it. */
  predicate LengthIsRight(msg: Msg)
    requires |msg.args| == MAX_ARGS
  {
    var size := Total(Used(msg));
    || size == 0
    || (size < LENGTH_LIMIT && (msg.ret.addr != 0 || msg.ret.size == 0))
    || msg.ret.size > LENGTH_LIMIT + size
  }

  lemma {:induction false} LengthEnough(msg: Msg)
    requires WellFormed(msg) && NoWrap(msg)
    ensures Total(Used(msg)) > 0 ==>
              (LengthIsRight(msg) <==> Total(Used(msg)) <= LocalLength(msg) < LENGTH_LIMIT)
    ensures Total(Used(msg)) == 0 && FrameSize(msg) != 0 ==> LocalLength(msg) == 0
  {
  }

  /** The buffer holds argument `i` where its slice is. */
  ghost predicate HoldsArg(mem: Mem, args: seq<RemoteArg>, buffer: seq<Byte>, i: nat) {
    && i < |args| && Has(mem, args[i].addr, args[i].size)
    && var at := Total(args[..i]);
       at + args[i].size <= |buffer| && buffer[at..at + args[i].size] == Bytes(mem, args[i].addr, args[i].size)
  }

  lemma {:induction false} ArgumentIsRemote(mem: Mem, args: seq<RemoteArg>, buffer: seq<Byte>, i: nat)
    requires i < |args| && Readable(mem, args)
    requires Total(args) <= |buffer| && buffer[..Total(args)] == Gather(mem, args)
    ensures HoldsArg(mem, args, buffer, i)
  {
    PieceOfGather(mem, args, i);
    var at := Total(args[..i]);
    assert buffer[..Total(args)][at..at + args[i].size] == buffer[at..at + args[i].size];
  }

  lemma {:induction false} GatherSnoc(mem: Mem, args: seq<RemoteArg>)
    requires args != [] && Readable(mem, args)
    ensures var last := |args| - 1;
            Readable(mem, args[..last]) && Gather(mem, args) ==
                Gather(mem, args[..last]) + Bytes(mem, args[last].addr, args[last].size)
    decreases |args|
  {
    var last := |args| - 1;
    if last > 0 {
      var rest := args[1..];
      assert forall k | 0 <= k < |rest| :: rest[k] == args[k + 1];
      GatherSnoc(mem, rest);
      assert rest[..last - 1] == args[..last][1..];
      var first, middle, end := Bytes(mem, args[0].addr, args[0].size), Gather(mem, rest[..last - 1]),
        Bytes(mem, args[last].addr, args[last].size);
      assert first + (middle + end) == (first + middle) + end;
    }
  }

  /** A buffer whose pieces are the arguments starts with all that can be found. */
  lemma {:induction false} PiecesAreAll(mem: Mem, args: seq<RemoteArg>, buffer: seq<Byte>)
    requires Readable(mem, args) && Total(args) <= |buffer|
    requires forall i: nat | i < |args| :: HoldsArg(mem, args, buffer, i)
    ensures buffer[..Total(args)] == Gather(mem, args)
    decreases |args|
  {
    if args == [] {
      assert buffer[..0] == [];
    } else {
      hide Gather;
      var last := |args| - 1;
      var front := args[..last];
      GatherSnoc(mem, args);
      forall i: nat | i < last ensures HoldsArg(mem, front, buffer, i) {
        assert HoldsArg(mem, args, buffer, i) && front[i] == args[i] && front[..i] == args[..i];
      }
      assert HoldsArg(mem, args, buffer, last);
      assert Total(args) == Total(front) + args[last].size;
      hide HoldsArg, Total, Readable;
      PiecesAreAll(mem, front, buffer);
      JoinPieces(buffer, Total(front), Total(args));
    }
  }

  lemma {:induction false} JoinPieces(buffer: seq<Byte>, m: nat, n: nat)
    requires m <= n <= |buffer|
    ensures buffer[..n] == buffer[..m] + buffer[m..n]
  {
  }

  /** In a frame that fits, the arguments are the caller's exactly when the buffer starts
      with all that can be found there. */
  lemma {:induction false} ArgumentsIff(names: seq<string>, msg: Msg, mem: Mem, junk: seq<Byte>, limit: nat)
    requires WellFormed(msg) && NoWrap(msg) && |junk| == FrameSize(msg) && Readable(mem, Used(msg))
    requires Build(names, msg, mem, junk, limit).Ready?
    ensures var frame := Build(names, msg, mem, junk, limit).frame;
            Fits(frame) && |frame.buffer| == FrameSize(msg) &&
            (Arguments(frame) == RemoteArguments(msg, mem) <==>
                frame.buffer[..Total(Used(msg))] == Gather(mem, Used(msg)))
  {
    var args, size := Used(msg), Total(Used(msg));
    FitsIff(names, msg, mem, junk, limit);
    var frame := Build(names, msg, mem, junk, limit).frame;
    SlicesPlain(msg);
    assert frame.args == FrameSlices(msg);
    hide Build, FrameSlices, Gather, Fits, Total;
    SameArguments(msg, mem, frame);
    if frame.buffer[..size] == Gather(mem, args) {
      forall i: nat | i < |args| ensures HoldsArg(mem, args, frame.buffer, i) {
        ArgumentIsRemote(mem, args, frame.buffer, i);
      }
    } else if Arguments(frame) == RemoteArguments(msg, mem) {
      PiecesAreAll(mem, args, frame.buffer);
    }
  }

  lemma {:induction false} SlicesPlain(msg: Msg)
    requires WellFormed(msg) && NoWrap(msg)
    ensures var args := Used(msg);
            forall i: nat | i < |args| :: FrameSlices(msg)[i] == Slice(Total(args[..i]), args[i].size)
  {
    var args := Used(msg);
    forall i: nat | i < |args|
      ensures Slices(args)[i] == Slice(Total(args[..i]), args[i].size) && Total(args[..i]) + args[i].size <= Total(args)
    {
      SliceIs(args, i);
    }
  }

  lemma {:induction false} SameArguments(msg: Msg, mem: Mem, frame: Frame)
    requires |msg.args| == MAX_ARGS && Readable(mem, Used(msg)) && Fits(frame) && |frame.args| == |Used(msg)|
    requires var args := Used(msg); forall i: nat | i < |args| :: frame.args[i] == Slice(Total(args[..i]), args[i].size)
    ensures var args := Used(msg);
            Arguments(frame) == RemoteArguments(msg, mem) <==> forall i: nat | i < |args| ::
                HoldsArg(mem, args, frame.buffer, i)
  {
    hide Total;
    var args := Used(msg);
    if Arguments(frame) == RemoteArguments(msg, mem) {
      forall i: nat | i < |args| ensures HoldsArg(mem, args, frame.buffer, i) {
        assert Arguments(frame)[i] == RemoteArguments(msg, mem)[i];
      }
    }
    if forall i: nat | i < |args| :: HoldsArg(mem, args, frame.buffer, i) {
      forall i: nat | i < |args| ensures Arguments(frame)[i] == RemoteArguments(msg, mem)[i] {
        assert HoldsArg(mem, args, frame.buffer, i);
      }
      assert Arguments(frame) == RemoteArguments(msg, mem);
    }
  }

  lemma {:induction false} AllArrives(names: seq<string>, msg: Msg, mem: Mem, junk: seq<Byte>, limit: nat)
    requires WellFormed(msg) && |junk| == FrameSize(msg)
    requires Find(names, msg.name) < |names| && (limit == 0 || |junk| <= limit)
    requires NoWrap(msg) && Readable(mem, Used(msg)) && LengthIsRight(msg)
    ensures Arrives(names, msg, mem, junk, limit)
  {
    var size, found := Total(Used(msg)), Gather(mem, Used(msg));
    GatherLength(mem, Used(msg));
    LengthEnough(msg);
    if junk != [] {
      var n := Min(LocalLength(msg), |found|);
      assert found[..n] == found;
      assert Splice(junk, 0, found)[..size] == found;
    } else {
      assert found == [];
    }
    assert Build(names, msg, mem, junk, limit).Ready?;
    ArgumentsIff(names, msg, mem, junk, limit);
  }

  /** Where sizes wrap, either the slices leave the buffer, or there is none and all are empty. */
  lemma {:induction false} WrappedIsLost(names: seq<string>, msg: Msg, mem: Mem, junk: seq<Byte>, limit: nat)
    requires WellFormed(msg) && |junk| == FrameSize(msg) && !NoWrap(msg)
    ensures !Arrives(names, msg, mem, junk, limit)
  {
    hide Build, Fits, LengthIsRight, Gather, Slices;
    var b := Build(names, msg, mem, junk, limit);
    if b.Ready? && Fits(b.frame) && Readable(mem, Used(msg)) {
      FitsIff(names, msg, mem, junk, limit);
      BuiltSlices(names, msg, mem, junk, limit);
      var i := SomeSize(Used(msg));
      hide FrameSize, Total;
      assert |Arguments(b.frame)[i]| == 0 && |RemoteArguments(msg, mem)[i]| > 0;
    }
  }

  lemma {:induction false} BuiltSlices(names: seq<string>, msg: Msg, mem: Mem, junk: seq<Byte>, limit: nat)
    requires WellFormed(msg) && |junk| == FrameSize(msg) && Build(names, msg, mem, junk, limit).Ready?
    ensures Build(names, msg, mem, junk, limit).frame.args == FrameSlices(msg)
    ensures FrameSize(msg) == 0 ==> FrameSlices(msg) == seq(|Used(msg)|, _ => Slice(0, 0))
    ensures !NoWrap(msg) ==> Total(Used(msg)) > 0
  {
    hide CopyIn, Total;
  }

  lemma {:induction false} SomeSize(args: seq<RemoteArg>) returns (i: nat)
    requires Total(args) > 0
    ensures i < |args| && args[i].size > 0
    decreases |args|
  {
    i := |args| - 1;
    if args[i].size == 0 {
      i := SomeSize(args[..i]);
    }
  }

  /** A buffer that shows that something did not arrive. */
  lemma {:induction false} SomethingLost(names: seq<string>, msg: Msg, mem: Mem, limit: nat) returns (junk: seq<Byte>)
    requires WellFormed(msg) && NoWrap(msg) && (!Readable(mem, Used(msg)) || !LengthIsRight(msg))
    ensures |junk| == FrameSize(msg) && !Arrives(names, msg, mem, junk, limit)
  {
    hide Build, Arguments, RemoteArguments, LengthIsRight, Gather, Total, Fits;
    if !Readable(mem, Used(msg)) {
      junk := Zeros(FrameSize(msg));
    } else {
      GatherLength(mem, Used(msg));
      junk := Opposite(Gather(mem, Used(msg)), FrameSize(msg));
      if Build(names, msg, mem, junk, limit).Ready? {
        ArgumentsIff(names, msg, mem, junk, limit);
        ShortKeepsJunk(names, msg, mem, junk, limit);
      }
    }
  }

  /** Bytes that differ from the ones found, everywhere. */
  function Opposite(found: seq<Byte>, n: nat): (junk: seq<Byte>)
    ensures |junk| == n && forall k | 0 <= k < n && k < |found| :: junk[k] != found[k]
  {
    seq(n, k requires 0 <= k < n => if k < |found| then 255 - found[k] else 0)
  }

  lemma {:induction false} ShortKeepsJunk(names: seq<string>, msg: Msg, mem: Mem, junk: seq<Byte>, limit: nat)
    requires WellFormed(msg) && NoWrap(msg) && |junk| == FrameSize(msg) && !LengthIsRight(msg)
    requires Build(names, msg, mem, junk, limit).Ready? && |Gather(mem, Used(msg))| == Total(Used(msg)) <= |junk|
    requires forall k | 0 <= k < Total(Used(msg)) :: junk[k] != Gather(mem, Used(msg))[k]
    ensures Build(names, msg, mem, junk, limit).frame.buffer[..Total(Used(msg))] != Gather(mem, Used(msg))
  {
    LengthEnough(msg);
    var size, found := Total(Used(msg)), Gather(mem, Used(msg));
    var n := Min(LocalLength(msg), size);
    assert n < size;
    assert Build(names, msg, mem, junk, limit).frame.buffer[..size][n] == junk[n] != found[n];
  }

  /** Whatever the new buffer holds: a call of a known function within the limit gets its
      arguments as the caller has them if and only if the sizes do not wrap, all arguments
      can be read, and the length of the read is right. */
  lemma {:induction false} ArgumentsArriveIff(names: seq<string>, msg: Msg, mem: Mem, limit: nat)
    requires WellFormed(msg) && Find(names, msg.name) < |names| && (limit == 0 || FrameSize(msg) <= limit)
    ensures (forall junk | |junk| == FrameSize(msg) :: Arrives(names, msg, mem, junk, limit)) <==>
            NoWrap(msg) && Readable(mem, Used(msg)) && LengthIsRight(msg)
  {
    if NoWrap(msg) && Readable(mem, Used(msg)) && LengthIsRight(msg) {
      forall junk | |junk| == FrameSize(msg) ensures Arrives(names, msg, mem, junk, limit) {
        AllArrives(names, msg, mem, junk, limit);
      }
    } else if NoWrap(msg) {
      var junk := SomethingLost(names, msg, mem, limit);
    } else {
      WrappedIsLost(names, msg, mem, Zeros(FrameSize(msg)), limit);
      assert |Zeros(FrameSize(msg))| == FrameSize(msg);
    }
  }

  /** Five sizes that wrap pass for a frame of eight bytes, under any limit from there on. */
  lemma {:induction false} WrapSlipsUnderTheLimit(names: seq<string>, msg: Msg, mem: Mem, junk: seq<Byte>, limit: nat)
    requires WellFormed(msg) && msg.argCount == 5 && msg.ret == RemoteArg(0, 0) && limit >= 8 == |junk|
    requires msg.args[0].size == 8 && forall i | 1 <= i <= 4 :: msg.args[i].size == WORD_LIMIT / 4
    requires Has(mem, msg.args[0].addr, 8) && !Has(mem, msg.args[1].addr, WORD_LIMIT / 4)
    requires Find(names, msg.name) < |names|
    ensures FrameSize(msg) == 8
    ensures var b := Build(names, msg, mem, junk, limit);
            b.Ready? && !Fits(b.frame) && b.frame.args[1] == Slice(8, WORD_LIMIT / 4)
  {
    var args := Used(msg);
    FiveSizes(args);
    var rest := args[1..];
    assert Gather(mem, rest) == [];
    assert Gather(mem, args) == Bytes(mem, args[0].addr, 8) + [];
    FitsIff(names, msg, mem, junk, limit);
    SliceAt(args, 1);
    assert args[..1] == [args[0]] && args[..1][..0] == [];
  }

  lemma {:induction false} FiveSizes(args: seq<RemoteArg>)
    requires |args| == 5 && args[0].size == 8 && forall i | 1 <= i <= 4 :: args[i].size == WORD_LIMIT / 4
    ensures Total(args) == 8 + WORD_LIMIT
  {
    assert args[..4][..3] == args[..3] && args[..3][..2] == args[..2] && args[..2][..1] == args[..1]
      && args[..1][..0] == [];
    assert Total(args[..1]) == 8 && Total(args[..2]) == 8 + WORD_LIMIT / 4;
    assert Total(args[..3]) == 8 + WORD_LIMIT / 4 * 2 && Total(args[..4]) == 8 + WORD_LIMIT / 4 * 3;
  }

  // ---------- the whole exchange ----------

  /** The caller's memory afterwards, and the answer it gets, if any; or the host works
      outside of the frame's buffer, and nothing can be said. */
  datatype Served = Served(mem: Mem, answered: bool, result: Result) | Outside

  function WriteMem(mem: Mem, addr: nat, data: seq<Byte>): Mem {
    map x | x in mem :: if addr <= x < addr + |data| then data[x - addr] else mem[x]
  }

  /** `gh_rpc_respondtomsg` */
  function Respond(msg: Msg, mem: Mem, frame: Frame): (r: Served)
    requires Fits(frame)
    ensures r.Served?
  {
    if frame.result == Ok && frame.ret.size != 0 then
      if !Has(mem, msg.ret.addr, frame.ret.size) then Served(mem, false, Ok)
      else Served(WriteMem(mem, msg.ret.addr, Piece(frame.buffer, frame.ret)), true, Ok)
    else Served(mem, true, frame.result)
  }

  /** `thread_handlemsg_functioncall`: only a missing function is answered when there is
      no frame. */
  function Serve(host: Host, names: seq<string>, msg: Msg, mem: Mem, junk: seq<Byte>, limit: nat): Served
    requires WellFormed(msg) && |junk| == FrameSize(msg)
  {
    match Build(names, msg, mem, junk, limit)
    case Missing => Served(mem, true, MissingFunc)
    case LargeFrame => Served(mem, false, Ok)
    case ArgCopyFail => Served(mem, false, Ok)
    case Overrun => Outside
    case Ready(frame) => if Fits(frame) then Respond(msg, mem, CallFrame(host, frame)) else Outside
  }

  /** A remote call is a local one: with arguments that arrive, the answer is the result of
      calling the function in the host on what the caller's memory holds, and when it
      succeeds the room for the return value holds what that call returned; nothing else
      in the caller's memory changes. */
  lemma {:induction false} RemoteCallIsLocal(host: Host, names: seq<string>, msg: Msg, mem: Mem, junk: seq<Byte>,
                                             limit: nat)
    requires WellFormed(msg) && |junk| == FrameSize(msg)
    requires Find(names, msg.name) < |names| && (limit == 0 || |junk| <= limit)
    requires NoWrap(msg) && Readable(mem, Used(msg)) && LengthIsRight(msg)
    ensures var c := CallLocally(host, Find(names, msg.name), RemoteArguments(msg, mem), RetSize(msg));
            Serve(host, names, msg, mem, junk, limit) ==
            if c.result != Ok || RetSize(msg) == 0 then Served(mem, true, c.result)
            else if Has(mem, msg.ret.addr, RetSize(msg)) then Served(WriteMem(mem, msg.ret.addr, c.ret), true, Ok)
            else Served(mem, false, Ok)
  {
    AllArrives(names, msg, mem, junk, limit);
    var frame := Build(names, msg, mem, junk, limit).frame;
    assert frame.callee == Find(names, msg.name) && frame.ret.size == RetSize(msg);
    hide Build, CallLocally, CallFrame, Arguments, RemoteArguments;
    CallFrameIsLocal(host, frame);
    assert Returned(CallFrame(host, frame)).ret == Piece(CallFrame(host, frame).buffer, frame.ret);
  }

  // ---------- what becomes of every message ----------

  /** There is something to read, and it starts with an argument that cannot be read; or the length
      given for it is one that the system call refuses. */
  ghost predicate Unreadable(msg: Msg, mem: Mem)
    requires WellFormed(msg)
  {
    && FrameSize(msg) != 0 && LocalLength(msg) > 0
    && (LocalLength(msg) >= LENGTH_LIMIT || StartsUnreadable(mem, Used(msg)))
  }

  ghost predicate StartsUnreadable(mem: Mem, args: seq<RemoteArg>) {
    exists i :: 0 <= i < |args| && Blocks(mem, args, i)
  }

  /** The first argument that is not empty cannot be read. */
  ghost predicate Blocks(mem: Mem, args: seq<RemoteArg>, i: nat)
    requires i < |args|
  {
    !Has(mem, args[i].addr, args[i].size) && forall j | 0 <= j < i :: args[j].size == 0
  }

  lemma {:induction false} NothingGatheredIff(mem: Mem, args: seq<RemoteArg>)
    ensures Gather(mem, args) == [] && Total(args) > 0 <==> StartsUnreadable(mem, args)
    decreases |args|
  {
    if args != [] {
      var rest := args[1..];
      TotalTail(args);
      NothingGatheredIff(mem, rest);
      if i :| 0 <= i < |rest| && Blocks(mem, rest, i) {
        if args[0].size == 0 {
          assert forall j | 0 < j < i + 1 :: args[j] == rest[j - 1];
          assert Blocks(mem, args, i + 1);
        }
      }
      if i :| 0 <= i < |args| && Blocks(mem, args, i) {
        if i > 0 {
          assert forall j | 0 <= j < i - 1 :: rest[j] == args[j + 1];
          assert Blocks(mem, rest, i - 1);
        }
      }
      if !Has(mem, args[0].addr, args[0].size) {
        assert Blocks(mem, args, 0);
      }
    }
  }

  /** All slices lie in the buffer: the sizes do not wrap, or there is no buffer. */
  predicate InBuffer(msg: Msg)
    requires |msg.args| == MAX_ARGS
  {
    NoWrap(msg) || FrameSize(msg) == 0
  }

  /** When there is a frame, and when there is none: the function is known, the frame within the
      limit, and the read not refused. */
  lemma {:induction false} FramedIff(names: seq<string>, msg: Msg, mem: Mem, junk: seq<Byte>, limit: nat)
    requires WellFormed(msg) && |junk| == FrameSize(msg)
    ensures var known, large := msg.name in names, limit != 0 && FrameSize(msg) > limit;
            var b := Build(names, msg, mem, junk, limit);
            && (b.Missing? <==> !known)
            && (b.LargeFrame? <==> known && large)
            && (b.ArgCopyFail? <==> known && !large && Unreadable(msg, mem))
            && (b.Ready? ==> (Fits(b.frame) <==> InBuffer(msg)))
            && (b.Overrun? ==> !InBuffer(msg))
  {
    hide Gather, Total, Fits;
    NothingGatheredIff(mem, Used(msg));
    GatherLength(mem, Used(msg));
    if Build(names, msg, mem, junk, limit).Ready? {
      FitsIff(names, msg, mem, junk, limit);
    }
  }

  /** Every message: a function that is not known is answered as missing; a frame over the limit,
      or arguments that cannot be read at all, are not answered; and then, or when the answer is
      not a success, the caller's memory is as it was. No other message goes unanswered, but for a
      return value that cannot be written, as long as the host stays within the buffer. */
  lemma {:induction false} AnsweredIff(host: Host, names: seq<string>, msg: Msg, mem: Mem, junk: seq<Byte>, limit: nat)
    requires WellFormed(msg) && |junk| == FrameSize(msg)
    ensures var known, large := msg.name in names, limit != 0 && FrameSize(msg) > limit;
            var r, b := Serve(host, names, msg, mem, junk, limit), Build(names, msg, mem, junk, limit);
            var called := known && !large && !Unreadable(msg, mem);
            && (!known ==> r == Served(mem, true, MissingFunc))
            && (known && !called ==> r == Served(mem, false, Ok))
            && (r.Outside? <==> called && !InBuffer(msg))
            && (called && InBuffer(msg) ==>
                  && b.Ready? && Fits(b.frame)
                  && var room := if FrameSize(msg) == 0 then 0 else RetSize(msg);
                     var c := CallLocally(host, Find(names, msg.name), Arguments(b.frame), room);
                     var unwritable := c.result == Ok && room != 0 && !Has(mem, msg.ret.addr, room);
                     && (r.answered <==> !unwritable)
                     && (r.answered ==> r.result == c.result)
                     && r.mem == if c.result == Ok && room != 0 && !unwritable
                        then WriteMem(mem, msg.ret.addr, c.ret) else mem)
  {
    FramedIff(names, msg, mem, junk, limit);
    var b := Build(names, msg, mem, junk, limit);
    if InBuffer(msg) && b.Ready? {
      ReadyFrame(names, msg, mem, junk, limit);
      hide Build, CallLocally, CallFrame, Arguments, Unreadable, Fits;
      CallFrameIsLocal(host, b.frame);
      var f := CallFrame(host, b.frame);
      assert Returned(f).ret == Piece(f.buffer, b.frame.ret);
    }
  }

  lemma {:induction false} ReadyFrame(names: seq<string>, msg: Msg, mem: Mem, junk: seq<Byte>, limit: nat)
    requires WellFormed(msg) && |junk| == FrameSize(msg) && Build(names, msg, mem, junk, limit).Ready?
    ensures var frame := Build(names, msg, mem, junk, limit).frame;
            frame.callee == Find(names, msg.name)
            && frame.ret.size == if FrameSize(msg) == 0 then 0 else RetSize(msg)
  {
  }

  /** Of the caller's memory, only the room for the value changes, and it holds the value. */
  lemma {:induction false} WrittenBack(mem: Mem, addr: nat, data: seq<Byte>)
    requires Has(mem, addr, |data|)
    ensures var after := WriteMem(mem, addr, data);
            && after.Keys == mem.Keys && Has(after, addr, |data|) && Bytes(after, addr, |data|) == data
            && forall x | x in mem && !(addr <= x < addr + |data|) :: after[x] == mem[x]
  {
  }
}
