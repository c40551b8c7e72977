/** The gate for running programs (src/ghost/perms/permexec.c). */
module PermExec {
  import opened Basics
  import opened PermFs
  import opened PermOutcomes
  import opened Ghperm

  /** What a call finds outside: whether the request fits its buffers, and the answer to it. */
  datatype Caller = Caller(fits: bool, answer: Answer)

  datatype Gated = Gated(entries: seq<ExecEntry>, status: PermFs.Status, prompted: bool)

  /** `gh_permexec_hashlist_tryget`: the first entry of that hash, if any. */
  function TryGet(entries: seq<ExecEntry>, hash: Digest): (r: Option<ExecEntry>)
    ensures r.Some? ==> r.value in entries && r.value.hash == hash
    ensures r.None? ==> forall e | e in entries :: e.hash != hash
  {
    if entries == [] then None else if entries[0].hash == hash then Some(entries[0]) else TryGet(entries[1..], hash)
  }

  function ModeFor(entries: seq<ExecEntry>, byDefault: ExecMode, hash: Digest): ExecMode {
    var e := TryGet(entries, hash);
    if e.Some? then e.value.mode else byDefault
  }

  /** `gh_permexec_gate`, for a program and arguments with this hash. */
  function ExecGate(entries: seq<ExecEntry>, byDefault: ExecMode, hash: Digest, caller: Caller): Gated {
    match ModeFor(entries, byDefault, hash)
    case ExecAccept => Gated(entries, Granted, false)
    case ExecReject => Gated(entries, RejectedPolicy, false)
    case ExecPrompt =>
      if !caller.fits then Gated(entries, Failed, false)
      else match caller.answer
        case Accept => Gated(entries, Granted, true)
        case Reject => Gated(entries, RejectedUser, true)
        case AcceptRemember => Gated(entries + [ExecEntry(ExecAccept, hash)], Granted, true)
        case RejectRemember => Gated(entries + [ExecEntry(ExecReject, hash)], RejectedUser, true)
        case Unsupported => Gated(entries, RejectedPrompt, true)
        case PrompterFails => Gated(entries, Failed, true)
  }

  /** Everything that changes the list: gates, and entries read from a file. */
  datatype ExecOp = Asked(hash: Digest, caller: Caller) | FromFile(entry: ExecEntry)

  function ExecStep(entries: seq<ExecEntry>, byDefault: ExecMode, op: ExecOp): seq<ExecEntry> {
    match op
    case Asked(hash, caller) => ExecGate(entries, byDefault, hash, caller).entries
    case FromFile(entry) => entries + [entry]
  }

  function ExecRun(entries: seq<ExecEntry>, byDefault: ExecMode, ops: seq<ExecOp>): seq<ExecEntry>
    decreases |ops|
  {
    if ops == [] then entries else ExecRun(ExecStep(entries, byDefault, ops[0]), byDefault, ops[1..])
  }

  // ---------- at once ----------

  /** Every call: the program may run if and only if its first entry, or the default, accepts it,
      or asks and the user says yes now. The list is as before, but for an answer to be remembered,
      which comes last. */
  lemma {:induction false} ExecGrantsIff(entries: seq<ExecEntry>, byDefault: ExecMode, hash: Digest, caller: Caller)
    ensures var mode, r := ModeFor(entries, byDefault, hash), ExecGate(entries, byDefault, hash, caller);
            var asked := mode == ExecPrompt && caller.fits;
            && (r.prompted <==> asked)
            && (r.status == Granted <==> mode == ExecAccept || (asked && SaysYes(caller.answer)))
            && (r.status == RejectedPolicy <==> mode == ExecReject)
            && (r.status == RejectedUser <==> asked && SaysNo(caller.answer))
            && (r.status == PermFs.RejectedPrompt <==> asked && caller.answer == Unsupported)
            && r.status != NullRequest
            && r.entries == entries +
               if asked && caller.answer == AcceptRemember then [ExecEntry(ExecAccept, hash)]
               else if asked && caller.answer == RejectRemember then [ExecEntry(ExecReject, hash)]
               else []
  {
    hide ModeFor;
  }

  // ---------- the first entry decides, whatever comes later ----------

  lemma {:induction false} RunAppends(entries: seq<ExecEntry>, byDefault: ExecMode, ops: seq<ExecOp>)
    ensures entries <= ExecRun(entries, byDefault, ops)
    decreases |ops|
  {
    if ops != [] {
      RunAppends(ExecStep(entries, byDefault, ops[0]), byDefault, ops[1..]);
    }
  }

  lemma {:induction false} FirstStays(entries: seq<ExecEntry>, longer: seq<ExecEntry>, hash: Digest)
    requires entries <= longer && TryGet(entries, hash).Some?
    ensures TryGet(longer, hash) == TryGet(entries, hash)
  {
    if entries[0].hash != hash {
      FirstStays(entries[1..], longer[1..], hash);
    }
  }

  lemma {:induction false} AppendedIsFound(entries: seq<ExecEntry>, e: ExecEntry)
    ensures TryGet(entries + [e], e.hash) == if TryGet(entries, e.hash).Some? then TryGet(entries, e.hash) else Some(e)
  {
    if entries == [] {
      assert entries + [e] == [e];
    } else {
      AppendedIsFound(entries[1..], e);
      assert (entries + [e])[1..] == entries[1..] + [e];
    }
  }

  /** After every run, and whoever calls, the gate answers without asking as it was answered. */
  ghost predicate SettledFor(entries: seq<ExecEntry>, byDefault: ExecMode, hash: Digest, status: PermFs.Status) {
    forall ops, caller :: ExecGate(ExecRun(entries, byDefault, ops), byDefault, hash, caller) ==
                          Gated(ExecRun(entries, byDefault, ops), status, false)
  }

  /** An answer that is remembered settles the gate for good if and only if there was no entry
      for the hash; behind one that asks, it is stored but never found. */
  lemma {:induction false} RememberedSettlesIff(entries: seq<ExecEntry>, byDefault: ExecMode, hash: Digest,
                                                caller: Caller)
    requires ExecGate(entries, byDefault, hash, caller).prompted
    requires (caller.answer == AcceptRemember || caller.answer == RejectRemember)
    ensures var after := ExecGate(entries, byDefault, hash, caller).entries;
            var status := if caller.answer == AcceptRemember then Granted else RejectedPolicy;
            && (SettledFor(after, byDefault, hash, status) <==> TryGet(entries, hash).None?)
            && (TryGet(entries, hash).Some? ==>
                 forall ops, later: Caller | later.fits ::
                   ExecGate(ExecRun(after, byDefault, ops), byDefault, hash, later).prompted)
  {
    var e := ExecEntry(if caller.answer == AcceptRemember then ExecAccept else ExecReject, hash);
    var after := entries + [e];
    AppendedIsFound(entries, e);
    forall ops ensures TryGet(ExecRun(after, byDefault, ops), hash) == TryGet(after, hash) {
      RunAppends(after, byDefault, ops);
      FirstStays(after, ExecRun(after, byDefault, ops), hash);
    }
    if TryGet(entries, hash).Some? {
      var asked := ExecGate(ExecRun(after, byDefault, []), byDefault, hash, Caller(true, Reject));
      assert asked.prompted;
    }
  }

  // ---------- the list ----------

  /** The command line entries, and the mode of those that have none. */
  class HashList {
    var entries: seq<ExecEntry>
    var defaultMode: ExecMode

    constructor (mode: ExecMode)
      ensures entries == [] && defaultMode == mode
    {
      entries := [];
      defaultMode := mode;
    }

    /** `gh_permexec_hashlist_tryget` */
    method Lookup(hash: Digest) returns (found: Option<ExecEntry>)
      ensures found == TryGet(entries, hash)
    {
      var i := 0;
      assert entries[0..] == entries;
      while i < |entries|
        invariant i <= |entries| && TryGet(entries[i..], hash) == TryGet(entries, hash)
      {
        if entries[i].hash == hash {
          return Some(entries[i]);
        }
        assert entries[i..][1..] == entries[i + 1..];
        i := i + 1;
      }
      return None;
    }

    /** `gh_permexec_gate` */
    method Ask(hash: Digest, caller: Caller) returns (status: PermFs.Status, prompted: bool)
      modifies this`entries
      ensures Gated(entries, status, prompted) == ExecGate(old(entries), defaultMode, hash, caller)
    {
      var mode := defaultMode;
      var found := Lookup(hash);
      if found.Some? {
        mode := found.value.mode;
      }
      if mode == ExecAccept {
        return Granted, false;
      }
      if mode == ExecReject {
        return RejectedPolicy, false;
      }
      if !caller.fits {
        return Failed, false;
      }
      match caller.answer
      case Accept => return Granted, true;
      case Reject => return RejectedUser, true;
      case AcceptRemember =>
        entries := entries + [ExecEntry(ExecAccept, hash)];
        return Granted, true;
      case RejectRemember =>
        entries := entries + [ExecEntry(ExecReject, hash)];
        return RejectedUser, true;
      case Unsupported => return RejectedPrompt, true;
      case PrompterFails => return Failed, true;
    }
  }
}
