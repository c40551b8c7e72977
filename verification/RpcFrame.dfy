/** Call frames as the host keeps them while it serves a call (src/ghost/rpc.c). */
module RpcFrame {
  import opened Memory
  import opened Rpc

  /** `OutOfBuffer`: where the C code would read or write outside of the frame's buffer. */
  datatype Status =
    | Fine | NoFunction | TooLarge | CopyFailed | OutOfBuffer
    | NotExecuted | AlreadyExecuted | AlreadyDisposed | ReturnCopyFailed

  class Call {
    var callee: nat
    var buffer: array<Byte>
    var args: seq<Slice>
    var ret: Slice
    var result: Result
    var executed: bool
    var disposed: bool

    ghost function Value(): Frame
      reads this, buffer
    {
      Frame(callee, buffer[..], args, ret, result)
    }

    ghost predicate Valid()
      reads this, buffer
    {
      Fits(Value())
    }

    constructor (callee: nat, buffer: array<Byte>, args: seq<Slice>, ret: Slice)
      ensures this.buffer == buffer && Value() == Frame(callee, buffer[..], args, ret, Ok) && !executed && !disposed
    {
      this.callee, this.buffer, this.args, this.ret := callee, buffer, args, ret;
      result, executed, disposed := Ok, false, false;
    }

    /** Copies bytes into the buffer. */
    method Put(at: nat, data: seq<Byte>)
      requires at + |data| <= buffer.Length
      modifies buffer
      ensures buffer[..] == Splice(old(buffer[..]), at, data)
    {
      forall k | 0 <= k < |data| {
        buffer[at + k] := data[k];
      }
    }

    /** `gh_rpcframe_setreturnv` */
    method PutReturn(value: seq<Byte>) returns (ok: bool)
      requires Valid()
      modifies this`result, buffer
      ensures Valid() && Value() == ActOn(old(Value()), SetReturn(value))
      ensures ok <==> 0 < ret.size && |value| <= ret.size
    {
      if ret.size == 0 {
        return false;
      }
      if ret.size < |value| {
        result := ReturnSize;
        return false;
      }
      Put(ret.at, value);
      return true;
    }

    /** The host function at work. */
    method Perform(actions: seq<Action>)
      requires Valid()
      modifies this`result, buffer
      ensures Valid() && Value() == ActsOn(old(Value()), actions)
    {
      var i := 0;
      assert actions[i..] == actions;
      while i < |actions|
        invariant i <= |actions| && Valid() && ActsOn(Value(), actions[i..]) == ActsOn(old(Value()), actions)
      {
        assert actions[i..][1..] == actions[i + 1..];
        match actions[i] {
          case SetReturn(value) => var ok := PutReturn(value);
          case SetResult(r) => result := r;
        }
        i := i + 1;
      }
    }

    /** `gh_rpc_callframe`; a frame is called once. */
    method CallOnce(host: Host) returns (status: Status)
      requires Valid()
      modifies this, buffer
      ensures Valid() && buffer == old(buffer) && disposed == old(disposed)
      ensures status == if old(disposed) then AlreadyDisposed else if old(executed) then AlreadyExecuted else Fine
      ensures status == Fine ==> executed && Value() == CallFrame(host, old(Value()))
      ensures status != Fine ==> executed == old(executed) && Value() == old(Value())
    {
      if disposed {
        return AlreadyDisposed;
      }
      if executed {
        return AlreadyExecuted;
      }
      ghost var before := Value();
      var inputs := seq(|args|, i requires 0 <= i < |args| reads this, buffer =>
        if args[i].at + args[i].size <= buffer.Length then buffer[args[i].at..args[i].at + args[i].size] else []);
      assert inputs == Arguments(before);
      Put(ret.at, Zeros(ret.size));
      executed, result := true, Ok;
      Perform(host(callee, inputs));
      return Fine;
    }

    /** `gh_rpc_respondtomsg` */
    method Answer(msg: Msg, mem: Mem) returns (status: Status, served: Served)
      requires Valid()
      ensures status == Fine ==> served == Respond(msg, mem, Value()) && served.answered
      ensures status == ReturnCopyFailed ==> served == Respond(msg, mem, Value()) && !served.answered
      ensures served.Served? && (status != Fine ==> served.mem == mem)
      ensures status == if disposed then AlreadyDisposed else if !executed then NotExecuted
                        else if Respond(msg, mem, Value()).answered then Fine else ReturnCopyFailed
    {
      served := Served(mem, false, Ok);
      if disposed {
        return AlreadyDisposed, served;
      }
      if !executed {
        return NotExecuted, served;
      }
      var mem' := mem;
      if result == Ok && ret.size != 0 {
        if !Has(mem, msg.ret.addr, ret.size) {
          return ReturnCopyFailed, served;
        }
        mem' := WriteMem(mem, msg.ret.addr, buffer[ret.at..ret.at + ret.size]);
      }
      return Fine, Served(mem', true, result);
    }
  }

  /** The loop that looks for the function */
  method FindFunction(names: seq<string>, name: string) returns (f: nat)
    ensures f == Find(names, name)
  {
    f := 0;
    assert names[0..] == names;
    while f < |names| && names[f] != name
      invariant f <= |names| && Find(names, name) == f + Find(names[f..], name)
    {
      assert names[f..][1..] == names[f + 1..];
      f := f + 1;
    }
  }

  /** The sum of two machine words, as the machine has it. */
  function AddWords(a: nat, b: nat): (c: nat)
    requires a < WORD_LIMIT && b < WORD_LIMIT
    ensures c == (a + b) % WORD_LIMIT
  {
    if a + b < WORD_LIMIT then a + b else a + b - WORD_LIMIT
  }

  ghost predicate Words(args: seq<RemoteArg>) {
    forall i | 0 <= i < |args| :: args[i].size < WORD_LIMIT
  }

  /** The loop that adds up the sizes */
  method SumSizes(args: seq<RemoteArg>) returns (size: nat)
    requires Words(args)
    ensures size == Total(args) % WORD_LIMIT
  {
    size := 0;
    var i := 0;
    while i < |args|
      invariant i <= |args| && size == Total(args[..i]) % WORD_LIMIT
    {
      assert args[..i + 1][..i] == args[..i];
      size := AddWords(size, args[i].size);
      i := i + 1;
    }
    assert args[..i] == args;
  }

  lemma {:induction false} NothingCut()
    ensures Total([]) % WORD_LIMIT == 0 && Slices([]) == []
  {
  }

  lemma {:induction false} CutStep(args: seq<RemoteArg>, i: nat)
    requires i < |args| && Words(args)
    ensures Total(args[..i + 1]) % WORD_LIMIT == AddWords(Total(args[..i]) % WORD_LIMIT, args[i].size)
    ensures Slices(args[..i + 1]) == Slices(args[..i]) + [Slice(Total(args[..i]) % WORD_LIMIT, args[i].size)]
  {
    assert args[..i + 1][..i] == args[..i];
    AddMod(Total(args[..i]), args[i].size);
  }

  /** The loop that hands out pieces of the buffer */
  method CutSlices(args: seq<RemoteArg>) returns (slices: seq<Slice>, offset: nat)
    requires Words(args)
    ensures slices == Slices(args) && offset == Total(args) % WORD_LIMIT
  {
    hide Total, Slices, AddWords;
    slices, offset := [], 0;
    NothingCut();
    var i := 0;
    while i < |args|
      invariant i <= |args| && offset == Total(args[..i]) % WORD_LIMIT && slices == Slices(args[..i])
    {
      CutStep(args, i);
      slices := slices + [Slice(offset, args[i].size)];
      offset := AddWords(offset, args[i].size);
      i := i + 1;
    }
    assert args[..i] == args;
  }

  /** The read of remote memory */
  method CopyArguments(msg: Msg, mem: Mem, args: seq<RemoteArg>, buffer: array<Byte>) returns (status: Status)
    requires WellFormed(msg) && args == Used(msg) && buffer.Length == FrameSize(msg) > 0
    modifies buffer
    ensures match CopyIn(msg, mem, old(buffer[..]))
            case CopyRefused => status == CopyFailed
            case CopyOverrun => status == OutOfBuffer
            case Copied(bytes) => status == Fine && buffer[..] == bytes
  {
    var found, length := Gather(mem, args), (buffer.Length - msg.ret.size) % WORD_LIMIT;
    if length >= LENGTH_LIMIT || (|found| == 0 && Min(length, Total(args)) > 0) {
      return CopyFailed;
    }
    var n := Min(length, |found|);
    if n > buffer.Length {
      return OutOfBuffer;
    }
    forall k | 0 <= k < n {
      buffer[k] := found[k];
    }
    assert buffer[..] == Splice(old(buffer[..]), 0, found[..n]);
    return Fine;
  }

  /** `gh_rpc_newframefrommsg`; `junk` is what the new buffer happened to hold. */
  method NewFrame(names: seq<string>, msg: Msg, mem: Mem, limit: nat)
    returns (status: Status, call: Call?, ghost junk: seq<Byte>)
    requires WellFormed(msg)
    ensures |junk| == FrameSize(msg)
    ensures match Build(names, msg, mem, junk, limit)
            case Missing => status == NoFunction
            case LargeFrame => status == TooLarge
            case ArgCopyFail => status == CopyFailed
            case Overrun => status == OutOfBuffer
            case Ready(frame) =>
              && status == Fine && call != null && fresh(call) && fresh(call.buffer)
              && call.Value() == frame && !call.executed && !call.disposed
  {
    hide Find, Total, Slices, CopyIn, AddWords;
    call := null;
    junk := Zeros(FrameSize(msg));
    var f := FindFunction(names, msg.name);
    if f == |names| {
      return NoFunction, null, junk;
    }
    var args := msg.args[..if msg.argCount > MAX_ARGS then MAX_ARGS else msg.argCount];
    var size := SumSizes(args);
    var room := if msg.ret.addr != 0 && msg.ret.size != 0 then msg.ret.size else 0;
    size := AddWords(size, room);
    assert size == FrameSize(msg) by { AddMod(Total(args), room); }
    if limit != 0 && size > limit {
      return TooLarge, null, junk;
    }
    var buffer := new Byte[size];
    junk := buffer[..];
    var slices, ret := seq(|args|, _ => Slice(0, 0)), Slice(0, 0);
    status := Fine;
    if size > 0 {
      var offset;
      slices, offset := CutSlices(args);
      if room != 0 {
        ret := Slice(offset, room);
      }
      status := CopyArguments(msg, mem, args, buffer);
      if status != Fine {
        return status, null, junk;
      }
    } else {
      assert CopyIn(msg, mem, junk) == Copied([]) by { NothingToCopy(msg, mem, junk); }
    }
    call := new Call(f, buffer, slices, ret);
    return Fine, call, junk;
  }

  lemma {:induction false} NothingToCopy(msg: Msg, mem: Mem, junk: seq<Byte>)
    requires WellFormed(msg) && |junk| == FrameSize(msg) == 0
    ensures CopyIn(msg, mem, junk) == Copied([])
  {
  }

  lemma {:induction false} AddMod(a: nat, b: nat)
    ensures (a % WORD_LIMIT + b) % WORD_LIMIT == (a + b) % WORD_LIMIT
  {
  }

  /** `thread_handlemsg_functioncall` */
  method HandleCall(host: Host, names: seq<string>, msg: Msg, mem: Mem, limit: nat) returns (served: Served)
    requires WellFormed(msg)
    ensures exists junk: seq<Byte> :: |junk| == FrameSize(msg) && served == Serve(host, names, msg, mem, junk, limit)
  {
    var status, call, junk := NewFrame(names, msg, mem, limit);
    if status == NoFunction {
      return Served(mem, true, MissingFunc);
    }
    if status == OutOfBuffer {
      return Outside;
    }
    if status != Fine {
      return Served(mem, false, Ok);
    }
    if !Fits(Frame(call.callee, call.buffer[..], call.args, call.ret, call.result)) {
      return Outside;
    }
    status := call.CallOnce(host);
    status, served := call.Answer(msg, mem);
    if status == ReturnCopyFailed {
      return;
    }
    call.disposed := true;
  }
}
