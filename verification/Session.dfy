/** The session between the host and a subjail: two processes and two queues
    (src/ghost/thread.c, src/jail/subjail.c and src/ghost/ipc.c). */
module Session {

  // ---------- messages and processes ----------

  /** A call of a host function: its name and arguments. */
  type Call = int

  /** What the host makes of a call. `Refused` is a frame error, which the host does not answer. */
  datatype Reply = Returns(value: int) | Missing | Refused

  type Registry = Call -> Reply

  /** A script: whether it loads, the host functions it calls, and what it ends with. */
  datatype Script = Script(loads: bool, calls: seq<Call>, value: int)

  datatype ScriptResult = Ended(value: int) | LoadError | CallError

  datatype ToSub = Command(script: Script) | FunctionReturn(reply: Reply)

  datatype ToHost = LuaInfo(id: nat) | FunctionCall(call: Call) | LuaResult(id: nat, result: ScriptResult)

  /** What a synchronous command returns to its caller. */
  datatype Outcome = Got(result: ScriptResult) | ExpectedLuaInfo | UnknownMessage | FrameError

  datatype Host = Idle | AwaitInfo | Sync(id: nat)

  datatype Sub =
    | Loop
    | Loaded(id: nat, script: Script)
    | Running(id: nat, calls: seq<Call>, result: ScriptResult)
    | Waiting(id: nat, calls: seq<Call>, result: ScriptResult)
    | Dead

  /** The commands still to be given, the two queues, the outcomes so far, the calls the host
      answered, and the replies the subjail got. */
  datatype State = State(host: Host, sub: Sub, down: seq<ToSub>, up: seq<ToHost>, nextId: nat,
                         todo: seq<Script>, outcomes: seq<Outcome>, served: seq<Call>, heard: seq<Reply>)

  function Init(scripts: seq<Script>): State {
    State(Idle, Loop, [], [], 0, scripts, [], [], [])
  }

  // ---------- steps ----------

  /** What the host does next. */
  datatype HostMove = HostMove(host: Host, sent: seq<ToSub>, outcomes: seq<Outcome>, served: seq<Call>)

  /** `gh_thread_runstring` and its like after the command went out. */
  function OnInfo(msg: ToHost): HostMove {
    if msg.LuaInfo? then HostMove(Sync(msg.id), [], [], []) else HostMove(Idle, [], [ExpectedLuaInfo], [])
  }

  /** One round of `thread_syncscript` */
  function OnMessage(serve: Registry, id: nat, msg: ToHost): HostMove {
    match msg
    case FunctionCall(call) =>
      if serve(call).Refused? then HostMove(Idle, [], [FrameError], [])
      else HostMove(Sync(id), [FunctionReturn(serve(call))], [], [call])
    case LuaResult(i, result) =>
      if i == id then HostMove(Idle, [], [Got(result)], []) else HostMove(Sync(id), [], [], [])
    case LuaInfo(_) => HostMove(Idle, [], [UnknownMessage], [])
  }

  /** What the subjail does next. */
  datatype SubMove = SubMove(sub: Sub, sent: seq<ToHost>, ids: nat, heard: seq<Reply>)

  /** The message loop, and the wait of `gh_ipc_call`. */
  function OnCommand(sub: Sub, nextId: nat, msg: ToSub): SubMove
    requires sub.Loop? || sub.Waiting?
  {
    if sub.Waiting? then
      SubMove(Running(sub.id, sub.calls, sub.result), [], 0, if msg.FunctionReturn? then [msg.reply] else [])
    else if msg.Command? then SubMove(Loaded(nextId, msg.script), [LuaInfo(nextId)], 1, [])
    else SubMove(Dead, [], 0, [])
  }

  /** Loading and running. After a load error the result is sent, and then the error
      message is run as if it were the script. */
  function OnRun(sub: Sub): SubMove
    requires sub.Loaded? || sub.Running?
  {
    match sub
    case Loaded(id, script) =>
      if script.loads then SubMove(Running(id, script.calls, Ended(script.value)), [], 0, [])
      else SubMove(Running(id, [], CallError), [LuaResult(id, LoadError)], 0, [])
    case Running(id, calls, result) =>
      if calls == [] then SubMove(Loop, [LuaResult(id, result)], 0, [])
      else SubMove(Waiting(id, calls[1..], result), [FunctionCall(calls[0])], 0, [])
  }

  datatype Who = TheHost | TheSub

  predicate Can(s: State, who: Who) {
    match who
    case TheHost => if s.host.Idle? then s.todo != [] else s.up != []
    case TheSub => s.sub.Loaded? || s.sub.Running? || ((s.sub.Loop? || s.sub.Waiting?) && s.down != [])
  }

  function HostNext(serve: Registry, s: State): HostMove
    requires Can(s, TheHost)
  {
    match s.host
    case Idle => HostMove(AwaitInfo, [Command(s.todo[0])], [], [])
    case AwaitInfo => OnInfo(s.up[0])
    case Sync(id) => OnMessage(serve, id, s.up[0])
  }

  function SubNext(s: State): SubMove
    requires Can(s, TheSub)
  {
    if s.sub.Loaded? || s.sub.Running? then OnRun(s.sub) else OnCommand(s.sub, s.nextId, s.down[0])
  }

  function Step(serve: Registry, s: State, who: Who): State
    requires Can(s, who)
  {
    match who
    case TheHost =>
      var m := HostNext(serve, s);
      var todo, up := if s.host.Idle? then s.todo[1..] else s.todo, if s.host.Idle? then s.up else s.up[1..];
      s.(host := m.host, todo := todo, up := up, down := s.down + m.sent,
         outcomes := s.outcomes + m.outcomes, served := s.served + m.served)
    case TheSub =>
      var m := SubNext(s);
      var down := if s.sub.Loaded? || s.sub.Running? then s.down else s.down[1..];
      s.(sub := m.sub, down := down, up := s.up + m.sent, nextId := s.nextId + m.ids, heard := s.heard + m.heard)
  }

  /** A schedule of steps, each of which can be taken when its turn comes. */
  predicate Possible(serve: Registry, s: State, w: seq<Who>)
    decreases |w|
  {
    w == [] || (Can(s, w[0]) && Possible(serve, Step(serve, s, w[0]), w[1..]))
  }

  function Run(serve: Registry, s: State, w: seq<Who>): State
    requires Possible(serve, s, w)
    decreases |w|
  {
    if w == [] then s else Run(serve, Step(serve, s, w[0]), w[1..])
  }

  /** Neither side can go on. */
  predicate Stopped(s: State) {
    !Can(s, TheHost) && !Can(s, TheSub)
  }

  // ---------- every run ends ----------

  function RunWeight(calls: nat): nat {
    2 + 4 * calls
  }

  function ScriptWeight(script: Script): nat {
    1 + if script.loads then RunWeight(|script.calls|) else 1 + RunWeight(0)
  }

  function SubWeight(sub: Sub): nat {
    match sub
    case Loop => 0
    case Dead => 0
    case Loaded(_, script) => ScriptWeight(script)
    case Running(_, calls, _) => RunWeight(|calls|)
    case Waiting(_, calls, _) => RunWeight(|calls|)
  }

  function MessageWeight(msg: ToSub): nat {
    match msg
    case Command(script) => 2 + ScriptWeight(script)
    case FunctionReturn(_) => 1
  }

  function DownWeight(down: seq<ToSub>): nat {
    if down == [] then 0
    else DownWeight(down[..|down| - 1]) + MessageWeight(down[|down| - 1])
  }

  function UpWeight(up: seq<ToHost>): nat {
    if up == [] then 0 else UpWeight(up[..|up| - 1]) + if up[|up| - 1].FunctionCall? then 2 else 1
  }

  function TodoWeight(todo: seq<Script>): nat {
    if todo == [] then 0 else 3 + ScriptWeight(todo[0]) + TodoWeight(todo[1..])
  }

  /** Bounds the steps that can still be taken. */
  function Weight(s: State): nat {
    SubWeight(s.sub) + DownWeight(s.down) + UpWeight(s.up) + TodoWeight(s.todo)
  }

  lemma {:induction false} DownWeightTail(down: seq<ToSub>)
    requires down != []
    ensures DownWeight(down) == DownWeight(down[1..]) + MessageWeight(down[0])
  {
    if |down| > 1 {
      var last := |down| - 1;
      DownWeightTail(down[..last]);
      assert down[..last][1..] == down[1..][..last - 1];
    }
  }

  lemma {:induction false} UpWeightTail(up: seq<ToHost>)
    requires up != []
    ensures UpWeight(up) == UpWeight(up[1..]) + if up[0].FunctionCall? then 2 else 1
  {
    if |up| > 1 {
      var last := |up| - 1;
      UpWeightTail(up[..last]);
      assert up[..last][1..] == up[1..][..last - 1];
    }
  }

  lemma {:induction false} DownWeightSnoc(down: seq<ToSub>, msg: ToSub)
    ensures DownWeight(down + [msg]) == DownWeight(down) + MessageWeight(msg)
    ensures DownWeight(down + []) == DownWeight(down)
  {
    assert (down + [msg])[..|down|] == down && down + [] == down;
  }

  lemma {:induction false} UpWeightSnoc(up: seq<ToHost>, msg: ToHost)
    ensures UpWeight(up + [msg]) == UpWeight(up) + if msg.FunctionCall? then 2 else 1
    ensures UpWeight(up + []) == UpWeight(up)
  {
    assert (up + [msg])[..|up|] == up && up + [] == up;
  }

  /** Whatever the scripts and whatever the host makes of their calls, every step
      brings the session closer to its end. */
  lemma {:induction false} StepsRunOut(serve: Registry, s: State, who: Who)
    requires Can(s, who)
    ensures Weight(Step(serve, s, who)) < Weight(s)
  {
    hide UpWeight, DownWeight, ScriptWeight;
    match who
    case TheHost =>
      var m := HostNext(serve, s);
      DownWeightSnoc(s.down, if m.sent == [] then FunctionReturn(Missing) else m.sent[0]);
      if !s.host.Idle? { UpWeightTail(s.up); }
    case TheSub => SubStepsRunOut(serve, s);
  }

  lemma {:induction false} SubStepsRunOut(serve: Registry, s: State)
    requires Can(s, TheSub)
    ensures Weight(Step(serve, s, TheSub)) < Weight(s)
  {
    hide UpWeight, DownWeight;
    var m := SubNext(s);
    UpWeightSnoc(s.up, if m.sent == [] then LuaInfo(0) else m.sent[0]);
    if !s.sub.Loaded? && !s.sub.Running? { DownWeightTail(s.down); }
  }

  lemma {:induction false} RunsAreShort(serve: Registry, s: State, w: seq<Who>)
    requires Possible(serve, s, w)
    ensures |w| <= Weight(s)
    decreases |w|
  {
    hide Weight, Step, Can;
    if w != [] {
      StepsRunOut(serve, s, w[0]);
      RunsAreShort(serve, Step(serve, s, w[0]), w[1..]);
    }
  }

  // ---------- the schedule does not matter ----------

  /** Steps of the two sides commute: each takes from the front of a queue and adds at
      the back. */
  lemma {:induction false} Commute(serve: Registry, s: State)
    requires Can(s, TheHost) && Can(s, TheSub)
    ensures var h, b := Step(serve, s, TheHost), Step(serve, s, TheSub);
            Can(h, TheSub) && Can(b, TheHost) && Step(serve, h, TheSub) == Step(serve, b, TheHost)
  {
    hide OnInfo, OnMessage, OnCommand, OnRun;
    var h, b := Step(serve, s, TheHost), Step(serve, s, TheSub);
    var x, y := HostNext(serve, s), SubNext(s);
    assert HostNext(serve, b) == x && SubNext(h) == y;
    if s.down != [] { assert (s.down + x.sent)[1..] == s.down[1..] + x.sent; }
    if s.up != [] { assert (s.up + y.sent)[1..] == s.up[1..] + y.sent; }
  }

  /** A step that can be taken now can be taken first. */
  lemma {:induction false} TakeFirst(serve: Registry, s: State, w: seq<Who>, who: Who) returns (w': seq<Who>)
    requires Possible(serve, s, w) && Stopped(Run(serve, s, w)) && Can(s, who)
    ensures Possible(serve, Step(serve, s, who), w') && Run(serve, Step(serve, s, who), w') == Run(serve, s, w)
    ensures |w'| == |w| - 1
    decreases |w|
  {
    hide Step, Can;
    if w[0] == who {
      w' := w[1..];
    } else {
      Commute(serve, s);
      var rest := TakeFirst(serve, Step(serve, s, w[0]), w[1..], who);
      w' := [w[0]] + rest;
      assert w'[1..] == rest;
    }
  }

  lemma {:induction false} TakeAllFirst(serve: Registry, s: State, w: seq<Who>, v: seq<Who>) returns (w': seq<Who>)
    requires Possible(serve, s, w) && Stopped(Run(serve, s, w)) && Possible(serve, s, v)
    ensures Possible(serve, Run(serve, s, v), w') && Run(serve, Run(serve, s, v), w') == Run(serve, s, w)
    decreases |v|
  {
    hide Step, Can;
    w' := w;
    if v != [] {
      w' := TakeFirst(serve, s, w, v[0]);
      w' := TakeAllFirst(serve, Step(serve, s, v[0]), w', v[1..]);
    }
  }

  /** All schedules that go on for as long as they can end in the same state. */
  lemma {:induction false} Determinate(serve: Registry, s: State, w: seq<Who>, v: seq<Who>)
    requires Possible(serve, s, w) && Stopped(Run(serve, s, w))
    requires Possible(serve, s, v) && Stopped(Run(serve, s, v))
    ensures Run(serve, s, w) == Run(serve, s, v)
  {
    hide Step, Can;
    var rest := TakeAllFirst(serve, s, w, v);
    if rest != [] {
      StoppedMeans(Run(serve, s, v), rest[0]);
    }
  }

  lemma {:induction false} StoppedMeans(s: State, who: Who)
    requires Stopped(s)
    ensures !Can(s, who)
  {
  }

  // ---------- outcomes, whatever happens ----------

  /** The outcome that a message to a waiting host makes for the command, if it ends it: the result
      of this very command is its own; nothing else is taken for a result. */
  function OutcomeOf(serve: Registry, host: Host, msg: ToHost): seq<Outcome>
    requires !host.Idle?
  {
    if host.AwaitInfo? then if msg.LuaInfo? then [] else [ExpectedLuaInfo]
    else if msg.LuaResult? && msg.id == host.id then [Got(msg.result)]
    else if msg.LuaInfo? then [UnknownMessage]
    else if msg.FunctionCall? && serve(msg.call).Refused? then [FrameError]
    else []
  }

  /** A command is over when it has an outcome, and not before; the answer to a call is sent back in
      the same step, and is what the registry says. */
  lemma {:induction false} OutcomeEndsCommand(serve: Registry, s: State)
    requires Can(s, TheHost) && !s.host.Idle?
    ensures var s', msg := Step(serve, s, TheHost), s.up[0];
            var made := OutcomeOf(serve, s.host, msg);
            && s'.outcomes == s.outcomes + made && (s'.host.Idle? <==> made != [])
            && s'.down == s.down + (if s.host.Sync? && msg.FunctionCall? && made == []
                                    then [FunctionReturn(serve(msg.call))] else [])
            && (made == [] ==> s'.host == if s.host.AwaitInfo? then Sync(msg.id) else s.host)
  {
  }

  /** Over every run, smooth or not: each command that was given has one outcome, but for the one
      that the host is still waiting for. */
  lemma {:induction false} OneOutcomeEach(serve: Registry, scripts: seq<Script>, w: seq<Who>)
    requires Possible(serve, Init(scripts), w)
    ensures var s := Run(serve, Init(scripts), w);
            |s.outcomes| + |s.todo| + (if s.host.Idle? then 0 else 1) == |scripts|
  {
    OutcomesAddUp(serve, Init(scripts), w);
  }

  function Commands(s: State): nat {
    |s.outcomes| + |s.todo| + if s.host.Idle? then 0 else 1
  }

  lemma {:induction false} OutcomesAddUp(serve: Registry, s: State, w: seq<Who>)
    requires Possible(serve, s, w)
    ensures Commands(Run(serve, s, w)) == Commands(s)
    decreases |w|
  {
    hide OnMessage, OnInfo, OnCommand, OnRun;
    if w != [] {
      if w[0] == TheHost && !s.host.Idle? {
        OutcomeEndsCommand(serve, s);
      }
      OutcomesAddUp(serve, Step(serve, s, w[0]), w[1..]);
    }
  }

  /** A reply that nobody waits for ends the subjail: nothing more comes from it. */
  lemma {:induction false} StrayReplyKills(serve: Registry, s: State, w: seq<Who>)
    requires s.sub.Loop? && s.down != [] && s.down[0].FunctionReturn?
    requires Possible(serve, Step(serve, s, TheSub), w)
    ensures var t := Run(serve, Step(serve, s, TheSub), w);
            t.sub.Dead? && |t.up| <= |s.up| && t.nextId == s.nextId && t.heard == s.heard
  {
    DeadIsSilent(serve, Step(serve, s, TheSub), w);
  }

  lemma {:induction false} DeadIsSilent(serve: Registry, s: State, w: seq<Who>)
    requires s.sub.Dead? && Possible(serve, s, w)
    ensures var t := Run(serve, s, w);
            t.sub.Dead? && |t.up| <= |s.up| && t.nextId == s.nextId && t.heard == s.heard
    decreases |w|
  {
    if w != [] {
      DeadIsSilent(serve, Step(serve, s, w[0]), w[1..]);
    }
  }

  // ---------- scripts that load, and calls that are answered ----------

  ghost predicate Answered(serve: Registry, calls: seq<Call>) {
    forall i | 0 <= i < |calls| :: !serve(calls[i]).Refused?
  }

  /** The script loads, and the host answers all its calls. */
  ghost predicate Smooth(serve: Registry, script: Script) {
    script.loads && Answered(serve, script.calls)
  }

  ghost predicate AllSmooth(serve: Registry, scripts: seq<Script>) {
    forall i | 0 <= i < |scripts| :: Smooth(serve, scripts[i])
  }

  /** Where the subjail is with the script it was last given, when what is in the queue
      to the host starts with `head`. */
  ghost predicate Busy(s: State, head: seq<ToHost>) {
    match s.sub
    case Loop => s.down == [] && |s.up| == |head| + 1 && s.up[..|head|] == head && s.up[|head|].LuaResult?
      && s.up[|head|].id == s.nextId - 1
    case Loaded(id, script) => s.down == [] && s.up == head && id == s.nextId - 1 && script.loads
    case Running(id, _, result) => s.down == [] && s.up == head && id == s.nextId - 1
    case Waiting(id, _, result) =>
      && id == s.nextId - 1
      && ((s.down == [] && |s.up| == |head| + 1 && s.up[..|head|] == head && s.up[|head|].FunctionCall?)
          || (head == [] && s.up == [] && |s.down| == 1 && s.down[0].FunctionReturn?))
    case Dead => false
  }

  /** The states the session goes through while all is smooth. */
  ghost predicate Shape(s: State) {
    match s.host
    case Idle => s.sub.Loop? && s.up == [] && s.down == []
    case AwaitInfo =>
      (s.sub.Loop? && s.up == [] && |s.down| == 1 && s.down[0].Command? && s.down[0].script.loads)
      || (s.nextId > 0 && Busy(s, [LuaInfo(s.nextId - 1)]))
    case Sync(id) => s.nextId > 0 && id == s.nextId - 1 && Busy(s, [])
  }

  /** What the host makes of each call. */
  function Answers(serve: Registry, calls: seq<Call>): (r: seq<Reply>)
    ensures |r| == |calls|
  {
    seq(|calls|, i requires 0 <= i < |calls| => serve(calls[i]))
  }

  /** Every call the host answered got its own reply: the subjail has heard it, or it is on its way. */
  ghost predicate AllHeard(serve: Registry, s: State) {
    s.heard + (if s.down != [] && s.down[0].FunctionReturn? then [s.down[0].reply] else []) == Answers(serve, s.served)
  }

  /** Calls of the current script that the host has not answered yet. */
  ghost function CallsLeft(s: State): seq<Call> {
    match s.sub
    case Loop => if s.down != [] && s.down[0].Command? then s.down[0].script.calls else []
    case Loaded(_, script) => script.calls
    case Running(_, calls, _) => calls
    case Waiting(_, calls, _) => if s.up != [] && s.up[|s.up| - 1].FunctionCall?
      then [s.up[|s.up| - 1].call] + calls else calls
    case Dead => []
  }

  /** The outcome of the current script, if there is one. */
  ghost function OutcomeLeft(s: State): seq<Outcome> {
    match s.sub
    case Loop =>
      if s.down != [] && s.down[0].Command? then [Got(Ended(s.down[0].script.value))]
      else if s.up != [] && s.up[|s.up| - 1].LuaResult? then [Got(s.up[|s.up| - 1].result)]
      else []
    case Loaded(_, script) => [Got(Ended(script.value))]
    case Running(_, _, result) => [Got(result)]
    case Waiting(_, _, result) => [Got(result)]
    case Dead => []
  }

  ghost function AllServed(s: State): seq<Call> {
    s.served + CallsLeft(s)
  }

  ghost function AllOutcomes(s: State): seq<Outcome> {
    s.outcomes + OutcomeLeft(s)
  }

  /** The step by which the host gives the next command. */
  lemma {:induction false} GiveCommand(serve: Registry, s: State)
    requires Shape(s) && s.host.Idle? && s.todo != [] && s.todo[0].loads
    ensures var s' := Step(serve, s, TheHost);
            Shape(s') && !s'.host.Idle? && s'.todo == s.todo[1..] && s'.outcomes == s.outcomes
                && CallsLeft(s') == s.todo[0].calls &&
            AllServed(s') == s.served + s.todo[0].calls && AllOutcomes(s') == s.outcomes + [Got(Ended(s.todo[0].value))]
  {
  }

  /** Steps of the host within a script. */
  lemma {:induction false} HostKeepsShape(serve: Registry, s: State)
    requires Shape(s) && !s.host.Idle? && Can(s, TheHost)
    ensures var s' := Step(serve, s, TheHost);
            if s.up[0].FunctionCall? && serve(s.up[0].call).Refused? then
              CallsLeft(s) != [] && CallsLeft(s)[0] == s.up[0].call && s'.host.Idle?
                  && s'.outcomes == s.outcomes + [FrameError]
            else
              Shape(s') && s'.todo == s.todo && AllServed(s') == AllServed(s) && AllOutcomes(s') == AllOutcomes(s) &&
              (CallsLeft(s') == CallsLeft(s) ||
               (CallsLeft(s) != [] && CallsLeft(s') == CallsLeft(s)[1..] && !serve(CallsLeft(s)[0]).Refused?))
  {
    if s.host.AwaitInfo? {
      InfoKeepsShape(serve, s);
    } else if s.up[0].FunctionCall? {
      AnswerKeepsShape(serve, s);
    } else {
      ResultKeepsShape(serve, s);
    }
  }

  lemma {:induction false} InfoKeepsShape(serve: Registry, s: State)
    requires Shape(s) && s.host.AwaitInfo? && Can(s, TheHost)
    ensures var s' := Step(serve, s, TheHost);
            s.up[0].LuaInfo? && Shape(s') && s'.todo == s.todo && AllServed(s') == AllServed(s)
                && AllOutcomes(s') == AllOutcomes(s) && CallsLeft(s') == CallsLeft(s)
  {
    var id, s' := s.nextId - 1, Step(serve, s, TheHost);
    assert s.up[..1] == [LuaInfo(id)];
    assert s' == s.(host := Sync(id), up := s.up[1..], down := s.down + [],
                    outcomes := s.outcomes + [], served := s.served + []);
    assert s.down + [] == s.down && s.outcomes + [] == s.outcomes && s.served + [] == s.served;
    hide Step;
    InfoTaken(s, id);
  }

  lemma {:induction false} InfoTaken(s: State, id: nat)
    requires Shape(s) && s.host.AwaitInfo? && s.up != [] && id == s.nextId - 1
    ensures var s' := s.(host := Sync(id), up := s.up[1..]);
            Shape(s') && CallsLeft(s') == CallsLeft(s) && OutcomeLeft(s') == OutcomeLeft(s)
  {
  }

  lemma {:induction false} AnswerKeepsShape(serve: Registry, s: State)
    requires Shape(s) && s.host.Sync? && Can(s, TheHost) && s.up[0].FunctionCall?
    ensures var s' := Step(serve, s, TheHost);
            CallsLeft(s) != [] && CallsLeft(s)[0] == s.up[0].call &&
            if serve(s.up[0].call).Refused? then s'.host.Idle? && s'.outcomes == s.outcomes + [FrameError]
            else
              && Shape(s') && s'.todo == s.todo && AllServed(s') == AllServed(s)
              && AllOutcomes(s') == AllOutcomes(s) && CallsLeft(s') == CallsLeft(s)[1..]
  {
  }

  lemma {:induction false} ResultKeepsShape(serve: Registry, s: State)
    requires Shape(s) && s.host.Sync? && Can(s, TheHost) && !s.up[0].FunctionCall?
    ensures var s' := Step(serve, s, TheHost);
            Shape(s') && s'.todo == s.todo && AllServed(s') == AllServed(s) && AllOutcomes(s') == AllOutcomes(s)
                && CallsLeft(s') == CallsLeft(s)
  {
  }

  /** Steps of the subjail within a script. */
  lemma {:induction false} SubKeepsShape(serve: Registry, s: State)
    requires Shape(s) && Can(s, TheSub)
    ensures var s' := Step(serve, s, TheSub);
            Shape(s') && !s.host.Idle? && s'.host == s.host && s'.todo == s.todo && s'.outcomes == s.outcomes
                && s'.served == s.served
  {
  }

  lemma {:induction false} SubKeepsWhatIsLeft(serve: Registry, s: State)
    requires Shape(s) && Can(s, TheSub)
    ensures var s' := Step(serve, s, TheSub); CallsLeft(s') == CallsLeft(s) && OutcomeLeft(s') == OutcomeLeft(s)
  {
  }

  // ---------- replies ----------

  lemma {:induction false} AnswersSnoc(serve: Registry, calls: seq<Call>, call: Call)
    ensures Answers(serve, calls + [call]) == Answers(serve, calls) + [serve(call)]
  {
  }

  lemma {:induction false} HostAnswers(serve: Registry, s: State)
    requires Shape(s) && Can(s, TheHost) && AllHeard(serve, s)
    ensures AllHeard(serve, Step(serve, s, TheHost))
  {
    hide Answers;
    var s', m := Step(serve, s, TheHost), HostNext(serve, s);
    if s.host.Sync? && s.up[0].FunctionCall? {
      AnswersSnoc(serve, s.served, s.up[0].call);
    }
    if m.served == [] {
      assert s.served + [] == s.served;
    }
  }

  lemma {:induction false} SubHears(serve: Registry, s: State)
    requires Shape(s) && Can(s, TheSub) && AllHeard(serve, s)
    ensures AllHeard(serve, Step(serve, s, TheSub))
  {
    hide Answers;
  }

  lemma {:induction false} HeardRun(serve: Registry, s: State, w: seq<Who>)
    requires Good(serve, s) && Possible(serve, s, w) && AllHeard(serve, s)
    ensures AllHeard(serve, Run(serve, s, w))
    decreases |w|
  {
    hide Step, Can, AllHeard, Shape, AllSmooth, Answered, CallsLeft;
    if w != [] {
      GoodStep(serve, s, w[0]);
      if w[0] == TheHost {
        HostAnswers(serve, s);
      } else {
        SubHears(serve, s);
      }
      HeardRun(serve, Step(serve, s, w[0]), w[1..]);
    }
  }

  // ---------- safety of smooth sessions ----------

  /** What the commands are meant to return. */
  function Meant(script: Script): Outcome {
    Got(if script.loads then Ended(script.value) else LoadError)
  }

  function MeantOf(scripts: seq<Script>): seq<Outcome> {
    if scripts == [] then [] else [Meant(scripts[0])] + MeantOf(scripts[1..])
  }

  function CallsOf(scripts: seq<Script>): seq<Call> {
    if scripts == [] then [] else scripts[0].calls + CallsOf(scripts[1..])
  }

  ghost predicate Good(serve: Registry, s: State) {
    Shape(s) && AllSmooth(serve, s.todo) && Answered(serve, CallsLeft(s))
  }

  /** Commands the subjail has not received yet. */
  ghost function Unreceived(s: State): nat {
    |s.todo| + if s.sub.Loop? && s.down != [] then 1 else 0
  }

  lemma {:induction false} GoodStep(serve: Registry, s: State, who: Who)
    requires Good(serve, s) && Can(s, who)
    ensures var s' := Step(serve, s, who);
            Good(serve, s') && AllServed(s') + CallsOf(s'.todo) == AllServed(s) + CallsOf(s.todo) &&
            AllOutcomes(s') + MeantOf(s'.todo) == AllOutcomes(s) + MeantOf(s.todo)
  {
    hide Step, Can, CallsOf, MeantOf, CallsLeft, OutcomeLeft, Shape;
    if who == TheSub {
      SubKeepsShape(serve, s);
      SubKeepsWhatIsLeft(serve, s);
    } else if s.host.Idle? {
      GiveGood(serve, s);
    } else {
      HostKeepsShape(serve, s);
    }
  }

  lemma {:induction false} GiveGood(serve: Registry, s: State)
    requires Good(serve, s) && s.host.Idle? && Can(s, TheHost)
    ensures var s' := Step(serve, s, TheHost);
            Good(serve, s') && AllServed(s') + CallsOf(s'.todo) == AllServed(s) + CallsOf(s.todo) &&
            AllOutcomes(s') + MeantOf(s'.todo) == AllOutcomes(s) + MeantOf(s.todo)
  {
  }

  lemma {:induction false} IdleHasNothingLeft(s: State)
    requires Shape(s) && s.host.Idle?
    ensures CallsLeft(s) == [] && OutcomeLeft(s) == [] && AllServed(s) == s.served && AllOutcomes(s) == s.outcomes
  {
  }

  lemma {:induction false} CountsCommands(serve: Registry, s: State, who: Who)
    requires Shape(s) && Can(s, who)
    ensures var s' := Step(serve, s, who); s'.nextId + Unreceived(s') == s.nextId + Unreceived(s)
  {
  }

  lemma {:induction false} GoodRun(serve: Registry, s: State, w: seq<Who>)
    requires Good(serve, s) && Possible(serve, s, w)
    ensures var t := Run(serve, s, w);
            Good(serve, t) && AllServed(t) + CallsOf(t.todo) == AllServed(s) + CallsOf(s.todo) &&
            AllOutcomes(t) + MeantOf(t.todo) == AllOutcomes(s) + MeantOf(s.todo)
                && t.nextId + Unreceived(t) == s.nextId + Unreceived(s)
    decreases |w|
  {
    hide Good, Step, Can, Unreceived, AllServed, AllOutcomes, CallsOf, MeantOf;
    if w != [] {
      GoodStep(serve, s, w[0]);
      CountsCommands(serve, s, w[0]) by { assert Shape(s) by { GoodShape(serve, s); } }
      GoodRun(serve, Step(serve, s, w[0]), w[1..]);
    }
  }

  lemma {:induction false} GoodShape(serve: Registry, s: State)
    requires Good(serve, s)
    ensures Shape(s)
  {
  }

  /** Only a session that is through with everything stops. */
  lemma {:induction false} StopsWhenDone(s: State)
    requires Shape(s) && Stopped(s)
    ensures s.host.Idle? && s.todo == []
  {
  }

  lemma {:induction false} QueueBounds(s: State)
    requires Shape(s)
    ensures |s.up| <= 2 && |s.down| <= 1 && (s.host.Sync? ==> |s.up| <= 1)
  {
  }

  lemma {:induction false} InitIsGood(serve: Registry, scripts: seq<Script>)
    requires AllSmooth(serve, scripts)
    ensures Good(serve, Init(scripts)) && CallsLeft(Init(scripts)) == [] && OutcomeLeft(Init(scripts)) == []
            && Unreceived(Init(scripts)) == |scripts|
  {
  }

  /** Scripts that load, calls that are answered, any schedule: the queues stay short,
      ids count the commands, calls are answered in the order they are made, each with its own
      reply, every command returns the result of its own script, and the two sides never wait for
      each other before all is done. */
  lemma {:induction false} SmoothSessionsAreSafe(serve: Registry, scripts: seq<Script>, w: seq<Who>)
    requires AllSmooth(serve, scripts) && Possible(serve, Init(scripts), w)
    ensures var s := Run(serve, Init(scripts), w);
            && |s.up| <= 2 && |s.down| <= 1
            && s.nextId + Unreceived(s) == |scripts|
            && s.served <= CallsOf(scripts) && s.outcomes <= MeantOf(scripts)
            && s.heard <= Answers(serve, CallsOf(scripts))
            && (Stopped(s) ==> s.host.Idle? && s.served == CallsOf(scripts) && s.outcomes == MeantOf(scripts)
                               && s.heard == Answers(serve, CallsOf(scripts)))
  {
    hide Step, Can, CallsOf, MeantOf, CallsLeft, OutcomeLeft, Busy, Answered, Unreceived;
    var init := Init(scripts);
    InitIsGood(serve, scripts);
    assert [] + CallsOf(scripts) == CallsOf(scripts) && [] + MeantOf(scripts) == MeantOf(scripts);
    GoodRun(serve, init, w);
    var s := Run(serve, init, w);
    QueueBounds(s);
    assert s.served + (CallsLeft(s) + CallsOf(s.todo)) == CallsOf(scripts);
    assert s.outcomes + (OutcomeLeft(s) + MeantOf(s.todo)) == MeantOf(scripts);
    HeardRun(serve, init, w);
    assert s.heard <= Answers(serve, s.served) <= Answers(serve, CallsOf(scripts));
    if Stopped(s) {
      StopsWhenDone(s);
      IdleHasNothingLeft(s);
      assert s.down == [];
      assert CallsOf([]) == [] && MeantOf([]) == [] by { NoScripts(); }
    }
  }

  lemma {:induction false} NoScripts()
    ensures CallsOf([]) == [] && MeantOf([]) == []
  {
  }

  // ---------- when commands return what they are meant to ----------

  lemma {:induction false} RunConcat(serve: Registry, s: State, v: seq<Who>, w: seq<Who>)
    requires Possible(serve, s, v) && Possible(serve, Run(serve, s, v), w)
    ensures Possible(serve, s, v + w) && Run(serve, s, v + w) == Run(serve, Run(serve, s, v), w)
    decreases |v|
  {
    hide Step, Can;
    if v == [] {
      assert v + w == w;
    } else {
      RunConcat(serve, Step(serve, s, v[0]), v[1..], w);
      assert (v + w)[1..] == v[1..] + w;
    }
  }

  lemma {:induction false} OutcomesGrow(serve: Registry, s: State, w: seq<Who>)
    requires Possible(serve, s, w)
    ensures s.outcomes <= Run(serve, s, w).outcomes
    decreases |w|
  {
    hide Can;
    if w != [] {
      OutcomesGrow(serve, Step(serve, s, w[0]), w[1..]);
    }
  }

  /** From anywhere inside a script that loaded: the host gets to the end of it if it
      answers the calls that are left, and gives up with a frame error otherwise. */
  lemma {:induction false} Finish(serve: Registry, s: State) returns (w: seq<Who>)
    requires Shape(s) && !s.host.Idle?
    ensures Possible(serve, s, w)
    ensures var t := Run(serve, s, w);
            t.host.Idle? &&
            if Answered(serve, CallsLeft(s)) then Shape(t) && t.todo == s.todo && t.outcomes == AllOutcomes(s)
            else t.outcomes == s.outcomes + [FrameError]
    decreases Weight(s)
  {
    hide Step, Weight, Busy, CallsLeft, OutcomeLeft;
    if Can(s, TheSub) {
      var s' := Step(serve, s, TheSub);
      SubKeepsShape(serve, s);
      SubKeepsWhatIsLeft(serve, s);
      StepsRunOut(serve, s, TheSub);
      var rest := Finish(serve, s');
      w := [TheSub] + rest;
      assert w[1..] == rest;
    } else {
      if !Can(s, TheHost) {
        StopsWhenDone(s);
        assert false;
      }
      var s' := Step(serve, s, TheHost);
      HostKeepsShape(serve, s);
      HostOutcomes(serve, s);
      StepsRunOut(serve, s, TheHost);
      assert s'.host.Idle? ==> Run(serve, s', []) == s';
      if s'.host.Idle? {
        w := [TheHost];
        assert w[1..] == [];
        if Shape(s') { IdleHasNothingLeft(s'); }
      } else {
        var rest := Finish(serve, s');
        w := [TheHost] + rest;
        assert w[1..] == rest;
      }
    }
  }

  /** Within a script, the host notes an outcome only when it goes idle. */
  lemma {:induction false} HostOutcomes(serve: Registry, s: State)
    requires Shape(s) && !s.host.Idle? && Can(s, TheHost)
    ensures var s' := Step(serve, s, TheHost); !s'.host.Idle? ==> s'.outcomes == s.outcomes
    ensures var s' := Step(serve, s, TheHost); s'.host.Idle? && CallsLeft(s) != [] ==> serve(CallsLeft(s)[0]).Refused?
  {
  }

  lemma {:induction false} MeantOfSnoc(scripts: seq<Script>, script: Script)
    ensures MeantOf(scripts + [script]) == MeantOf(scripts) + [Meant(script)]
  {
    hide Meant;
    if scripts != [] {
      MeantOfSnoc(scripts[1..], script);
      assert (scripts + [script])[1..] == scripts[1..] + [script];
    }
  }

  lemma {:induction false} MeantAt(scripts: seq<Script>, k: nat)
    requires k < |scripts|
    ensures |MeantOf(scripts)| == |scripts| && MeantOf(scripts)[k] == Meant(scripts[k])
    ensures MeantOf(scripts)[k].Got?
  {
    if |scripts| > 1 {
      MeantAt(scripts[1..], if k > 0 then k - 1 else 0);
    }
  }

  /** A smooth command, from idle to idle. */
  lemma {:induction false} OneCommand(serve: Registry, s: State) returns (w: seq<Who>)
    requires Shape(s) && s.host.Idle? && s.todo != [] && s.todo[0].loads
    ensures Possible(serve, s, w)
    ensures var t := Run(serve, s, w);
            t.host.Idle? &&
            if Answered(serve, s.todo[0].calls) then Shape(t) && t.todo == s.todo[1..]
              && t.outcomes == s.outcomes + [Meant(s.todo[0])]
            else t.outcomes == s.outcomes + [FrameError]
  {
    var s' := Step(serve, s, TheHost);
    GiveCommand(serve, s);
    hide Step, CallsLeft, OutcomeLeft, Shape;
    var rest := Finish(serve, s');
    w := [TheHost] + rest;
    assert w[1..] == rest;
  }

  /** After a load error the host has the outcome, and the subjail a second result
      that it never asked for. */
  lemma {:induction false} LoadFailure(serve: Registry, s: State) returns (w: seq<Who>)
    requires Shape(s) && s.host.Idle? && s.todo != [] && !s.todo[0].loads
    ensures Possible(serve, s, w)
    ensures Run(serve, s, w) == State(Idle, Loop, [], [LuaResult(s.nextId, CallError)], s.nextId + 1, s.todo[1..],
            s.outcomes + [Got(LoadError)], s.served, s.heard)
  {
    var id, script := s.nextId, s.todo[0];
    var s1 := State(AwaitInfo, Loop, [Command(script)], [], id, s.todo[1..], s.outcomes, s.served, s.heard);
    var s2 := State(AwaitInfo, Loaded(id, script), [], [LuaInfo(id)], id + 1, s.todo[1..], s.outcomes,
      s.served, s.heard);
    var s3 := State(Sync(id), Loaded(id, script), [], [], id + 1, s.todo[1..], s.outcomes, s.served, s.heard);
    var s4 := State(Sync(id), Running(id, [], CallError), [], [LuaResult(id, LoadError)], id + 1, s.todo[1..],
      s.outcomes, s.served, s.heard);
    var s5 := State(Idle, Running(id, [], CallError), [], [], id + 1, s.todo[1..],
      s.outcomes + [Got(LoadError)], s.served, s.heard);
    var s6 := State(Idle, Loop, [], [LuaResult(id, CallError)], id + 1, s.todo[1..],
      s.outcomes + [Got(LoadError)], s.served, s.heard);
    assert Step(serve, s, TheHost) == s1;
    assert Step(serve, s1, TheSub) == s2;
    assert Step(serve, s2, TheHost) == s3;
    assert Step(serve, s3, TheSub) == s4;
    assert Step(serve, s4, TheHost) == s5;
    assert Step(serve, s5, TheSub) == s6;
    hide Step;
    w := OneStep(serve, s5, TheSub, []);
    w := OneStep(serve, s4, TheHost, w);
    w := OneStep(serve, s3, TheSub, w);
    w := OneStep(serve, s2, TheHost, w);
    w := OneStep(serve, s1, TheSub, w);
    w := OneStep(serve, s, TheHost, w);
  }

  lemma {:induction false} OneStep(serve: Registry, s: State, who: Who, rest: seq<Who>) returns (w: seq<Who>)
    requires Can(s, who) && Possible(serve, Step(serve, s, who), rest)
    ensures Possible(serve, s, w) && Run(serve, s, w) == Run(serve, Step(serve, s, who), rest)
  {
    w := [who] + rest;
    assert w[1..] == rest;
  }

  /** The command after a load error is answered with the stale result. */
  lemma {:induction false} StaleResult(serve: Registry, s: State) returns (w: seq<Who>)
    requires s.host.Idle? && s.sub.Loop? && s.down == [] && |s.up| == 1 && s.up[0].LuaResult? && s.todo != []
    ensures Possible(serve, s, w) && Run(serve, s, w).outcomes == s.outcomes + [ExpectedLuaInfo]
  {
    var s1 := Step(serve, s, TheHost);
    var s2 := Step(serve, s1, TheHost);
    w := OneStep(serve, s1, TheHost, []);
    w := OneStep(serve, s, TheHost, w);
  }

  lemma {:induction false} SmoothPrefix(serve: Registry, scripts: seq<Script>, k: nat) returns (w: seq<Who>)
    requires k <= |scripts| && AllSmooth(serve, scripts[..k])
    ensures Possible(serve, Init(scripts), w)
    ensures var t := Run(serve, Init(scripts), w);
            Shape(t) && t.host.Idle? && t.todo == scripts[k..] && t.outcomes == MeantOf(scripts[..k])
  {
    if k == 0 {
      w := [];
    } else {
      assert scripts[..k][..k - 1] == scripts[..k - 1] && scripts[..k] == scripts[..k - 1] + [scripts[k - 1]];
      assert Smooth(serve, scripts[..k][k - 1]);
      assert forall i | 0 <= i < k - 1 :: scripts[..k - 1][i] == scripts[..k][i];
      hide Shape, Possible, Run;
      var v := SmoothPrefix(serve, scripts, k - 1);
      var s := Run(serve, Init(scripts), v);
      var u := OneCommand(serve, s);
      RunConcat(serve, Init(scripts), v, u);
      w := v + u;
      MeantOfSnoc(scripts[..k - 1], scripts[k - 1]);
      assert scripts[k - 1..][1..] == scripts[k..] && scripts[k - 1..][0] == scripts[k - 1];
    }
  }

  /** The host answers all calls, and no script but the last fails to load. */
  ghost predicate Orderly(serve: Registry, scripts: seq<Script>) {
    forall i | 0 <= i < |scripts| :: if scripts[i].loads then Answered(serve, scripts[i].calls) else i == |scripts| - 1
  }

  /** A script that is not smooth shows in the outcomes, its own or the next, unless it
      is the last and fails to load. */
  lemma {:induction false} FirstTrouble(serve: Registry, scripts: seq<Script>, k: nat) returns (w: seq<Who>)
    requires k < |scripts| && AllSmooth(serve, scripts[..k]) && !Smooth(serve, scripts[k])
    ensures Possible(serve, Init(scripts), w)
    ensures var t := Run(serve, Init(scripts), w);
            if scripts[k].loads || k < |scripts| - 1 then |t.outcomes| <= |scripts| && exists i ::
              0 <= i < |t.outcomes| && !t.outcomes[i].Got?
            else Stopped(t) && t.outcomes == MeantOf(scripts)
  {
    hide Shape, Possible, Run, AllSmooth, Answered, MeantOf, Stopped;
    var v := SmoothPrefix(serve, scripts, k);
    var s := Run(serve, Init(scripts), v);
    assert s.todo[0] == scripts[k] && s.todo[1..] == scripts[k + 1..];
    MeantLength(scripts[..k]);
    if scripts[k].loads {
      var u := OneCommand(serve, s);
      RunConcat(serve, Init(scripts), v, u);
      w := v + u;
      var t := Run(serve, Init(scripts), w);
      assert !t.outcomes[|t.outcomes| - 1].Got?;
    } else {
      var u := LoadFailure(serve, s);
      RunConcat(serve, Init(scripts), v, u);
      w := v + u;
      var t := Run(serve, Init(scripts), w);
      if k < |scripts| - 1 {
        var x := StaleResult(serve, t);
        RunConcat(serve, Init(scripts), w, x);
        w := w + x;
        assert !Run(serve, Init(scripts), w).outcomes[k + 1].Got?;
      } else {
        assert scripts == scripts[..k] + [scripts[k]];
        MeantOfSnoc(scripts[..k], scripts[k]);
        assert Stopped(t) by { NothingMore(t); }
      }
    }
  }

  lemma {:induction false} NothingMore(s: State)
    requires s.host.Idle? && s.todo == [] && s.sub.Loop? && s.down == []
    ensures Stopped(s)
  {
  }

  lemma {:induction false} MeantLength(scripts: seq<Script>)
    ensures |MeantOf(scripts)| == |scripts|
  {
    if scripts != [] {
      MeantAt(scripts, 0);
    }
  }

  lemma {:induction false} FindTrouble(serve: Registry, scripts: seq<Script>) returns (k: nat)
    ensures k <= |scripts| && AllSmooth(serve, scripts[..k]) && (k < |scripts| ==> !Smooth(serve, scripts[k]))
  {
    hide Smooth;
    k := 0;
    while k < |scripts| && Smooth(serve, scripts[k])
      invariant k <= |scripts| && AllSmooth(serve, scripts[..k])
    {
      k := k + 1;
    }
  }

  /** However the two sides are scheduled: when nothing more can happen, every command has
      returned the result of its own script if and only if the host answers every call
      and no script but the last fails to load. */
  lemma {:induction false} MeantIff(serve: Registry, scripts: seq<Script>, w: seq<Who>)
    requires Possible(serve, Init(scripts), w) && Stopped(Run(serve, Init(scripts), w))
    ensures Run(serve, Init(scripts), w).outcomes == MeantOf(scripts) <==> Orderly(serve, scripts)
  {
    var k := FindTrouble(serve, scripts);
    hide Shape, Possible, Run, AllSmooth, Answered, MeantOf, Stopped, Can;
    var t := Run(serve, Init(scripts), w);
    if k == |scripts| {
      assert scripts[..k] == scripts;
      SmoothSessionsAreSafe(serve, scripts, w);
      SmoothIsOrderly(serve, scripts);
    } else {
      var v := FirstTrouble(serve, scripts, k);
      var c := Run(serve, Init(scripts), v);
      if scripts[k].loads || k < |scripts| - 1 {
        TroubleIsNotOrderly(serve, scripts, k);
        var rest := TakeAllFirst(serve, Init(scripts), w, v);
        OutcomesGrow(serve, c, rest);
        var i :| 0 <= i < |c.outcomes| && !c.outcomes[i].Got?;
        assert t.outcomes[i] == c.outcomes[i];
        MeantAt(scripts, i);
      } else {
        Determinate(serve, Init(scripts), w, v);
        LastTroubleIsOrderly(serve, scripts);
      }
    }
  }

  lemma {:induction false} SmoothIsOrderly(serve: Registry, scripts: seq<Script>)
    requires AllSmooth(serve, scripts)
    ensures Orderly(serve, scripts)
  {
  }

  lemma {:induction false} TroubleIsNotOrderly(serve: Registry, scripts: seq<Script>, k: nat)
    requires k < |scripts| && !Smooth(serve, scripts[k]) && (scripts[k].loads || k < |scripts| - 1)
    ensures !Orderly(serve, scripts)
  {
  }

  lemma {:induction false} LastTroubleIsOrderly(serve: Registry, scripts: seq<Script>)
    requires scripts != [] && AllSmooth(serve, scripts[..|scripts| - 1]) && !scripts[|scripts| - 1].loads
    ensures Orderly(serve, scripts)
  {
  }

  // ---------- one side at a time ----------

  /** The host goes on until its command is over or it has nothing more to receive. */
  function Drain(serve: Registry, s: State): State
    decreases |s.up|
  {
    if s.host.Sync? && s.up != [] then Drain(serve, Step(serve, s, TheHost)) else s
  }

  /** The subjail goes on until it has to wait. */
  function Advance(serve: Registry, s: State): State
    decreases Weight(s)
  {
    if Can(s, TheSub) then
      StepsRunOut(serve, s, TheSub);
      Advance(serve, Step(serve, s, TheSub))
    else s
  }

  /** The two loops are runs of the session. */
  lemma {:induction false} DrainIsRun(serve: Registry, s: State) returns (w: seq<Who>)
    ensures Possible(serve, s, w) && Run(serve, s, w) == Drain(serve, s) && forall i | 0 <= i < |w| :: w[i] == TheHost
    decreases |s.up|
  {
    w := [];
    if s.host.Sync? && s.up != [] {
      var rest := DrainIsRun(serve, Step(serve, s, TheHost));
      w := OneStep(serve, s, TheHost, rest);
      w := [TheHost] + rest;
      assert w[1..] == rest;
    }
  }

  lemma {:induction false} AdvanceIsRun(serve: Registry, s: State) returns (w: seq<Who>)
    ensures Possible(serve, s, w) && Run(serve, s, w) == Advance(serve, s) && forall i | 0 <= i < |w| :: w[i] == TheSub
    decreases Weight(s)
  {
    w := [];
    if Can(s, TheSub) {
      StepsRunOut(serve, s, TheSub);
      hide Step, Weight;
      var rest := AdvanceIsRun(serve, Step(serve, s, TheSub));
      w := [TheSub] + rest;
      assert w[1..] == rest;
    }
  }

  /** The host's end of the session. */
  class Thread {
    const serve: Registry
    var down: seq<ToSub>
    var up: seq<ToHost>
    var served: seq<Call>

    constructor (serve: Registry)
      ensures this.serve == serve && down == [] && up == [] && served == []
    {
      this.serve, down, up, served := serve, [], [], [];
    }

    /** The session as far as the host is concerned. */
    ghost function View(host: Host, outcomes: seq<Outcome>): State
      reads this
    {
      State(host, Loop, down, up, 0, [], outcomes, served, [])
    }

    /** `gh_thread_process`: receives one message; an error ends the command. */
    method Process(ghost id: nat) returns (error: bool, outcome: Outcome, notice: ToHost)
      requires up != []
      modifies this
      ensures up == old(up)[1..] && notice == old(up)[0]
      ensures var m := OnMessage(serve, id, notice);
              && down == old(down) + m.sent && served == old(served) + m.served
              && (error <==> m.host.Idle? && !notice.LuaResult?) && (error ==> m.outcomes == [outcome])
    {
      notice := up[0];
      up := up[1..];
      error, outcome := false, UnknownMessage;
      match notice
      case FunctionCall(call) =>
        var reply := serve(call);
        if reply.Refused? {
          return true, FrameError, notice;
        }
        down := down + [FunctionReturn(reply)];
        served := served + [call];
      case LuaResult(_, _) =>
      case LuaInfo(_) =>
        return true, UnknownMessage, notice;
    }

    /** `thread_syncscript`; not done when there is nothing more to receive. */
    method SyncScript(id: nat) returns (done: bool, outcome: Outcome)
      modifies this
      ensures View(if done then Idle else Sync(id), if done then [outcome] else []) ==
              Drain(serve, old(View(Sync(id), [])))
      ensures !done ==> up == []
    {
      done, outcome := false, UnknownMessage;
      while up != []
        invariant Drain(serve, View(Sync(id), [])) == Drain(serve, old(View(Sync(id), [])))
        decreases |up|
      {
        var error, failure, notice := Process(id);
        if error {
          return true, failure;
        }
        if notice.LuaResult? && notice.id == id {
          return true, Got(notice.result);
        }
      }
    }
  }

  /** The subjail's end of the session. */
  class Subjail {
    var sub: Sub
    var nextId: nat
    var down: seq<ToSub>
    var up: seq<ToHost>
    var heard: seq<Reply>

    constructor ()
      ensures sub == Loop && nextId == 0 && down == [] && up == [] && heard == []
    {
      sub, nextId, down, up, heard := Loop, 0, [], [], [];
    }

    ghost function View(): State
      reads this
    {
      State(Idle, sub, down, up, nextId, [], [], [], heard)
    }

    method Send(msg: ToHost)
      modifies this`up
      ensures up == old(up) + [msg]
    {
      up := up + [msg];
    }

    /** The message loop with what it calls, up to the next wait for a message. */
    method Go(ghost serve: Registry)
      modifies this
      ensures View() == Advance(serve, old(View()))
    {
      hide Weight;
      while sub.Loaded? || sub.Running? || ((sub.Loop? || sub.Waiting?) && down != [])
        invariant Advance(serve, View()) == Advance(serve, old(View()))
        decreases Weight(View())
      {
        StepsRunOut(serve, View(), TheSub);
        ghost var next := Step(serve, View(), TheSub);
        match sub {
          case Loop =>
            var msg := down[0];
            down := down[1..];
            if msg.Command? {
              Send(LuaInfo(nextId));
              sub := Loaded(nextId, msg.script);
              nextId := nextId + 1;
            } else {
              sub := Dead;
            }
          case Loaded(id, script) =>
            if script.loads {
              sub := Running(id, script.calls, Ended(script.value));
            } else {
              Send(LuaResult(id, LoadError));
              sub := Running(id, [], CallError);
            }
          case Running(id, calls, result) =>
            if calls == [] {
              Send(LuaResult(id, result));
              sub := Loop;
            } else {
              Send(FunctionCall(calls[0]));
              sub := Waiting(id, calls[1..], result);
            }
          case Waiting(id, calls, result) =>
            var msg := down[0];
            down := down[1..];
            if msg.FunctionReturn? {
              heard := heard + [msg.reply];
            }
            sub := Running(id, calls, result);
        }
        assert View() == next;
      }
    }
  }
}
