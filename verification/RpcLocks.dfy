/** Threads calling host functions at the same time (src/ghost/rpc.c, lines 191-219). */
module RpcLocks {

  datatype Safety = UnsafeLocal | UnsafeGlobal | Safe

  /** The mutex of one function, or the one shared by all that need it. */
  datatype Lock = OfFunction(f: nat) | Global

  /** What a thread is doing: nothing of interest, waiting for the mutex of the function
      it calls, or running that function. */
  datatype Phase = Outside | Waiting(f: nat) | Inside(f: nat)

  /** The owner of each locked mutex, by thread. */
  datatype State = State(threads: seq<Phase>, owner: map<Lock, nat>)

  datatype Move = Call(f: nat) | Enter | Leave

  /** The mutex that a function needs, if any. */
  function LockOf(functions: seq<Safety>, f: nat): (r: seq<Lock>)
    ensures |r| <= 1
  {
    if f >= |functions| then []
    else match functions[f]
      case UnsafeLocal => [OfFunction(f)]
      case UnsafeGlobal => [Global]
      case Safe => []
  }

  predicate Free(functions: seq<Safety>, s: State, f: nat) {
    LockOf(functions, f) == [] || LockOf(functions, f)[0] !in s.owner
  }

  predicate Can(functions: seq<Safety>, s: State, t: nat, move: Move) {
    t < |s.threads| &&
    match move
    case Call(f) => s.threads[t].Outside? && f < |functions|
    case Enter => s.threads[t].Waiting? && Free(functions, s, s.threads[t].f)
    case Leave => s.threads[t].Inside?
  }

  function Step(functions: seq<Safety>, s: State, t: nat, move: Move): State
    requires Can(functions, s, t, move)
  {
    match move
    case Call(f) => s.(threads := s.threads[t := Waiting(f)])
    case Enter =>
      var f := s.threads[t].f;
      var lock := LockOf(functions, f);
      State(s.threads[t := Inside(f)], if lock == [] then s.owner else s.owner[lock[0] := t])
    case Leave =>
      var lock := LockOf(functions, s.threads[t].f);
      State(s.threads[t := Outside], if lock == [] then s.owner else s.owner - {lock[0]})
  }

  datatype Event = Event(t: nat, move: Move)

  predicate Possible(functions: seq<Safety>, s: State, run: seq<Event>)
    decreases |run|
  {
    run == [] || (Can(functions, s, run[0].t, run[0].move)
        && Possible(functions, Step(functions, s, run[0].t, run[0].move), run[1..]))
  }

  function Run(functions: seq<Safety>, s: State, run: seq<Event>): State
    requires Possible(functions, s, run)
    decreases |run|
  {
    if run == [] then s else Run(functions, Step(functions, s, run[0].t, run[0].move), run[1..])
  }

  /** Threads at rest, and all mutexes free. */
  function Init(threads: nat): State {
    State(seq(threads, _ => Outside), map[])
  }

  /** A locked mutex is held by the thread inside a function that needs it, and by no
      other thread inside such a function. */
  ghost predicate Consistent(functions: seq<Safety>, s: State) {
    && (forall t | 0 <= t < |s.threads| :: s.threads[t].Inside? && LockOf(functions, s.threads[t].f) != [] ==>
          LockOf(functions, s.threads[t].f)[0] in s.owner && s.owner[LockOf(functions, s.threads[t].f)[0]] == t)
    && (forall lock | lock in s.owner ::
          s.owner[lock] < |s.threads| && s.threads[s.owner[lock]].Inside?
              && LockOf(functions, s.threads[s.owner[lock]].f) == [lock])
    && (forall t | 0 <= t < |s.threads| :: s.threads[t].Inside? || s.threads[t].Waiting? ==>
       s.threads[t].f < |functions|)
  }

  lemma {:induction false} StepKeeps(functions: seq<Safety>, s: State, t: nat, move: Move)
    requires Consistent(functions, s) && Can(functions, s, t, move)
    ensures Consistent(functions, Step(functions, s, t, move)) && |Step(functions, s, t, move).threads| == |s.threads|
  {
  }

  lemma {:induction false} RunKeeps(functions: seq<Safety>, s: State, run: seq<Event>)
    requires Consistent(functions, s) && Possible(functions, s, run)
    ensures Consistent(functions, Run(functions, s, run)) && |Run(functions, s, run).threads| == |s.threads|
    decreases |run|
  {
    hide Consistent, Can;
    if run != [] {
      StepKeeps(functions, s, run[0].t, run[0].move);
      RunKeeps(functions, Step(functions, s, run[0].t, run[0].move), run[1..]);
    }
  }

  /** Two functions that must not run at the same time: the same one, marked unsafe by
      itself, or any two that are marked unsafe together. */
  predicate Clash(functions: seq<Safety>, f: nat, g: nat)
    requires f < |functions| && g < |functions|
  {
    (f == g && functions[f] == UnsafeLocal) || (functions[f] == UnsafeGlobal && functions[g] == UnsafeGlobal)
  }

  /** Over any number of threads and any run, no two threads are inside functions that clash. */
  lemma {:induction false} NeverTogether(functions: seq<Safety>, threads: nat, run: seq<Event>, t: nat, u: nat)
    requires Possible(functions, Init(threads), run) && t < u < threads
    ensures var s := Run(functions, Init(threads), run);
            |s.threads| == threads &&
            (s.threads[t].Inside? && s.threads[u].Inside? ==>
              s.threads[t].f < |functions| && s.threads[u].f < |functions|
                  && !Clash(functions, s.threads[t].f, s.threads[u].f))
  {
    RunKeeps(functions, Init(threads), run);
  }

  /** Threads that are inside functions that do not clash do not hinder each other: a
      thread has to wait only for one that is inside a function that clashes with its own. */
  lemma {:induction false} WaitsOnlyForAClash(functions: seq<Safety>, threads: nat, run: seq<Event>, t: nat)
    requires Possible(functions, Init(threads), run) && t < threads
    ensures var s := Run(functions, Init(threads), run);
            |s.threads| == threads &&
            (s.threads[t].Waiting? ==>
              s.threads[t].f < |functions| &&
              (Can(functions, s, t, Enter) <==>
               !exists u | 0 <= u < threads :: s.threads[u].Inside? && s.threads[u].f < |functions|
                   && Clash(functions, s.threads[t].f, s.threads[u].f)))
  {
    RunKeeps(functions, Init(threads), run);
    var s := Run(functions, Init(threads), run);
    if s.threads[t].Waiting? {
      var lock := LockOf(functions, s.threads[t].f);
      if lock != [] && lock[0] in s.owner {
        var u := s.owner[lock[0]];
        assert s.threads[u].Inside? && LockOf(functions, s.threads[u].f) == lock;
        assert Clash(functions, s.threads[t].f, s.threads[u].f);
      }
    }
  }

  /** There is no deadlock: a thread that waits either can enter, or the mutex it waits for is
      owned by a thread that is inside a function that clashes with its own, and can leave. */
  lemma {:induction false} NeverStuck(functions: seq<Safety>, threads: nat, run: seq<Event>, t: nat)
    requires Possible(functions, Init(threads), run) && t < threads
    ensures var s := Run(functions, Init(threads), run);
            |s.threads| == threads &&
            (s.threads[t].Waiting? && !Can(functions, s, t, Enter) ==>
              var lock := LockOf(functions, s.threads[t].f);
              && lock != [] && lock[0] in s.owner && s.owner[lock[0]] < threads
              && var u := s.owner[lock[0]];
                 && u != t && Can(functions, s, u, Leave)
                 && s.threads[t].f < |functions| && s.threads[u].f < |functions|
                    && Clash(functions, s.threads[t].f, s.threads[u].f)
                 && Can(functions, Step(functions, s, u, Leave), t, Enter))
  {
    RunKeeps(functions, Init(threads), run);
    var s := Run(functions, Init(threads), run);
    if s.threads[t].Waiting? && !Can(functions, s, t, Enter) {
      var lock := LockOf(functions, s.threads[t].f);
      var u := s.owner[lock[0]];
      assert LockOf(functions, s.threads[u].f) == lock;
    }
  }
}
