/**
  The fork-server protocol. The fuzzer asks for a run over one pipe and reads a
  pid and then a wait status from the other; the server forks a child, or
  resumes the one that stopped itself; a one-shot timer interrupts the fuzzer
  at any moment and kills the child, or, before the handshake is over, the
  server. Every read, write, wait, signal, timer
  expiry and child event is one atomic step and the steps interleave freely.
 */
module ForkServer {

  datatype Status = Exit | Signal(byKill: bool) | Stop

  datatype Proc = Running | Stopped(reported: bool) | Zombie(status: Status) | Reaped

  datatype Message = Hello | Pid(pid: nat) | WaitStatus(status: Status)

  datatype ServerPc =
    | SayHello | ReadRequest | CheckKilled | ReapKilled | Dispatch | WritePid | WaitChild | WriteStatus | Dead

  datatype Server = Server(pc: ServerPc, childPid: nat, childStopped: bool, wasKilled: bool, status: Status)

  datatype FuzzerPc =
    | ArmStart | ReadHello | DisarmStart // the handshake
    | Idle | WriteRequest | ReadPid | ArmTimer | ReadStatus | Settle | Disarm | Record
    | Fatal                              // a read or a write failed: the fuzzer exits

  /** `handler` is set while the alarm handler stands between its two statements. */
  datatype Fuzzer = Fuzzer(pc: FuzzerPc, childPid: int, timedOut: bool, prevTimedOut: bool, status: Status,
                           armed: bool, handler: bool)

  /** The counters and `killed` only record what happened. */
  datatype State = State(server: Server, fuzzer: Fuzzer, procs: map<nat, Proc>, ctl: seq<bool>, st: seq<Message>,
                         killed: set<nat>, requests: nat, pids: nat, statuses: nat)

  datatype Action =
    | ServerStep            // the server's next statement
    | Fork(pid: nat)        // fork() succeeds with a fresh pid
    | ForkFails
    | FuzzerStep            // the fuzzer's next statement
    | TimerFires            // SIGALRM: the handler tests the pid and sets the flag
    | HandlerKills          // the handler sends SIGKILL
    | ChildEnds(who: nat, how: Status)
    | ChildStops(who: nat)

  const INIT := State(Server(SayHello, 0, false, false, Exit), Fuzzer(ArmStart, -1, false, false, Exit, false, false),
                      map[], [], [], {}, 0, 0, 0)

  // ---------- the steps ----------

  /** Whether waitpid on the child returns at once: it died, or it stopped and stops are asked for. */
  predicate Waitable(s: State, untraced: bool) {
    s.server.childPid !in s.procs ||
    var p := s.procs[s.server.childPid];
    p.Zombie? || p.Reaped? || (untraced && p == Stopped(false))
  }

  predicate Enabled(persistent: bool, s: State, a: Action) {
    match a
    case ServerStep =>
      (match s.server.pc
       case ReadRequest => s.ctl != []
       case ReapKilled => Waitable(s, false)
       case WaitChild => Waitable(s, persistent)
       case Dispatch => s.server.childStopped
       case Dead => false
       case _ => true)
    case Fork(pid) => s.server.pc == Dispatch && !s.server.childStopped && pid > 0 && pid !in s.procs
    case ForkFails => s.server.pc == Dispatch && !s.server.childStopped
    case FuzzerStep =>
      !s.fuzzer.handler &&
      (match s.fuzzer.pc
       case ReadHello | ReadPid | ReadStatus => s.st != [] || s.server.pc == Dead // end of file
       case Fatal => false
       case _ => true)
    case TimerFires => s.fuzzer.armed && !s.fuzzer.handler
    case HandlerKills => s.fuzzer.handler
    case ChildEnds(who, how) => who in s.procs && s.procs[who] == Running && how != Stop
    case ChildStops(who) => who in s.procs && s.procs[who] == Running
  }

  function ServerNext(s: State): State
    requires s.server.pc == ReadRequest ==> s.ctl != []
  {
    var v := s.server;
    match v.pc
    case SayHello => s.(st := s.st + [Hello], server := v.(pc := ReadRequest))
    case ReadRequest => s.(ctl := s.ctl[1..], server := v.(wasKilled := s.ctl[0], pc := CheckKilled))
    case CheckKilled =>
      if v.childStopped && v.wasKilled then s.(server := v.(childStopped := false, pc := ReapKilled))
      else s.(server := v.(pc := Dispatch))
    case ReapKilled =>
      if v.childPid !in s.procs || s.procs[v.childPid].Reaped? then s.(server := v.(pc := Dead)) // waitpid() < 0
      else s.(procs := s.procs[v.childPid := Reaped], server := v.(pc := Dispatch))
    case Dispatch => Resume(s)
    case WritePid => s.(st := s.st + [Pid(v.childPid)], server := v.(pc := WaitChild))
    case WaitChild =>
      if v.childPid !in s.procs || s.procs[v.childPid].Reaped? then s.(server := v.(pc := Dead)) // waitpid() < 0
      else
        var p := s.procs[v.childPid];
        if p.Zombie? then
          s.(procs := s.procs[v.childPid := Reaped], server := v.(status := p.status, pc := WriteStatus))
        else
          s.(procs := s.procs[v.childPid := Stopped(true)],
             server := v.(status := Stop, childStopped := true, pc := WriteStatus))
    case WriteStatus => s.(st := s.st + [WaitStatus(v.status)], server := v.(pc := ReadRequest))
    case Dead => s
  }

  /** kill(child_pid, SIGCONT) */
  function Resume(s: State): State {
    var v := s.server;
    s.(procs := if v.childPid in s.procs && s.procs[v.childPid].Stopped? then s.procs[v.childPid := Running]
                else s.procs,
       server := v.(childStopped := false, pc := WritePid))
  }

  function FuzzerNext(s: State): State {
    var f := s.fuzzer;
    match f.pc
    case ArmStart => s.(fuzzer := f.(armed := true, pc := ReadHello))
    case ReadHello =>
      if s.st == [] then GiveUp(s) else s.(st := s.st[1..], fuzzer := f.(pc := DisarmStart))
    case DisarmStart => s.(fuzzer := f.(armed := false, pc := Idle))
    case Idle => s.(fuzzer := f.(timedOut := false, pc := WriteRequest))
    case WriteRequest =>
      if s.server.pc == Dead then GiveUp(s)
      else s.(ctl := s.ctl + [f.prevTimedOut], fuzzer := f.(pc := ReadPid), requests := s.requests + 1)
    case ReadPid =>
      if s.st == [] || !s.st[0].Pid? || s.st[0].pid == 0 then GiveUp(s)
      else s.(st := s.st[1..], fuzzer := f.(childPid := s.st[0].pid, pc := ArmTimer), pids := s.pids + 1)
    case ArmTimer => s.(fuzzer := f.(armed := true, pc := ReadStatus))
    case ReadStatus =>
      if s.st == [] then GiveUp(s)
      else
        var status := if s.st[0].WaitStatus? then s.st[0].status else Exit;
        s.(st := s.st[1..], fuzzer := f.(status := status, pc := Settle), statuses := s.statuses + 1)
    case Settle => s.(fuzzer := f.(childPid := if f.status != Stop then 0 else f.childPid, pc := Disarm))
    case Disarm => s.(fuzzer := f.(armed := false, pc := Record))
    case Record => s.(fuzzer := f.(prevTimedOut := f.timedOut, pc := Idle))
    case Fatal => s
  }

  function GiveUp(s: State): State {
    s.(fuzzer := s.fuzzer.(armed := false, pc := Fatal))
  }

  /** Before the first run the pid is -1, and the handler takes aim at the server. */
  function Fire(s: State): State {
    var f := s.fuzzer.(armed := false);
    if f.childPid > 0 || f.childPid == -1 then s.(fuzzer := f.(timedOut := true, handler := true)) else s.(fuzzer := f)
  }

  function Kill(s: State): State {
    var pid := s.fuzzer.childPid;
    var t := s.(fuzzer := s.fuzzer.(handler := false));
    if pid == -1 then t.(server := s.server.(pc := Dead))
    else if pid > 0 && pid in s.procs then
      t.(killed := s.killed + {pid},
         procs := if s.procs[pid].Running? || s.procs[pid].Stopped? then s.procs[pid := Zombie(Signal(true))]
                  else s.procs)
    else t
  }

  function Apply(persistent: bool, s: State, a: Action): State
    requires Enabled(persistent, s, a)
  {
    match a
    case ServerStep => ServerNext(s)
    case Fork(pid) => s.(procs := s.procs[pid := Running], server := s.server.(childPid := pid, pc := WritePid))
    case ForkFails => s.(server := s.server.(pc := Dead))
    case FuzzerStep => FuzzerNext(s)
    case TimerFires => Fire(s)
    case HandlerKills => Kill(s)
    case ChildEnds(who, how) => s.(procs := s.procs[who := Zombie(how)])
    case ChildStops(who) => s.(procs := s.procs[who := Stopped(false)])
  }

  /** A run from the start: one state more than there are steps, in any interleaving. */
  ghost predicate IsRun(persistent: bool, states: seq<State>, steps: seq<Action>) {
    && |states| == |steps| + 1
    && states[0] == INIT
    && forall i | 0 <= i < |steps| ::
      Enabled(persistent, states[i], steps[i]) && states[i + 1] == Apply(persistent, states[i], steps[i])
  }

  // ---------- the invariant ----------

  /** Where the two programs stand relative to each other, and what the pipes hold. */
  ghost predicate InStep(s: State) {
    var v := s.server;
    match s.fuzzer.pc
    case ArmStart | ReadHello =>
      && s.ctl == [] && s.requests == 0
      && (match v.pc
          case SayHello => s.st == []
          case ReadRequest => s.st == [Hello]
          case Dead => s.fuzzer.pc == ReadHello && (s.st == [] || s.st == [Hello])
          case _ => false)
    case DisarmStart | Idle | WriteRequest =>
      && s.ctl == [] && s.st == []
      && (v.pc == ReadRequest || (v.pc == Dead && v.childPid == 0 && s.requests == 0))
      && (s.fuzzer.pc == DisarmStart ==> s.requests == 0)
    case Fatal => v.pc == Dead
    case ReadPid =>
      || (v.pc == ReadRequest && s.ctl == [s.fuzzer.prevTimedOut] && s.st == [])
      || (v.pc in {CheckKilled, ReapKilled, Dispatch, WritePid, Dead} && s.ctl == [] && s.st == [])
      || (v.pc in {WaitChild, WriteStatus} && s.ctl == [] && s.st == [Pid(v.childPid)])
      || (v.pc == ReadRequest && s.ctl == [] && s.st == [Pid(v.childPid), WaitStatus(v.status)] && v.childPid > 0)
    case ArmTimer | ReadStatus =>
      && s.ctl == []
      && ((v.pc in {WaitChild, WriteStatus} && s.st == []) || (v.pc == ReadRequest && s.st == [WaitStatus(v.status)]))
    case _ => v.pc == ReadRequest && s.ctl == [] && s.st == []
  }

  ghost predicate Counted(s: State) {
    match s.fuzzer.pc
    case ReadPid => s.requests == s.pids + 1 && s.pids == s.statuses
    case ArmTimer | ReadStatus => s.requests == s.pids && s.pids == s.statuses + 1
    case Fatal => s.pids == s.statuses && s.pids <= s.requests <= s.pids + 1
    case _ => s.requests == s.pids == s.statuses
  }

  /** A request is on its way to the server or being carried out. */
  ghost predicate Asked(s: State) {
    s.ctl != [] || s.server.pc == CheckKilled
  }

  /** The child belongs to the run the fuzzer is in. */
  ghost predicate InRun(s: State) {
    s.fuzzer.pc in {ArmTimer, ReadStatus, Settle, Disarm, Record}
  }

  ghost predicate ChildState(s: State) {
    var v := s.server;
    && (forall p | p in s.procs && p != v.childPid :: s.procs[p].Reaped?)
    && (forall p | p in s.killed :: p in s.procs && (s.procs[p].Zombie? || s.procs[p].Reaped?))
    && (v.childPid == 0 || v.childPid in s.procs)
    && (v.childPid == 0 ==> !v.childStopped && v.pc in {SayHello, ReadRequest, CheckKilled, Dispatch, Dead})
    && 0 !in s.procs
    && (v.childPid > 0 ==>
          var p := s.procs[v.childPid];
          && (p.Zombie? ==> p.status != Stop)
          && match v.pc
          case WritePid | WaitChild => !v.childStopped && !p.Reaped? && p != Stopped(true)
          case ReapKilled => !v.childStopped && p.Zombie?
          case _ => if v.childStopped then p == Stopped(true) || p.Zombie? else p.Reaped?)
    && (v.pc == Dispatch && v.childStopped ==> s.procs[v.childPid] == Stopped(true))
    && (v.pc == WriteStatus || (v.pc == ReadRequest && v.childPid > 0 && s.ctl == []) ==>
          (v.status == Stop <==> v.childStopped))
  }

  /** A child that stopped is dead exactly when the timer killed it, and the fuzzer's flags say so. */
  ghost predicate KillsKnown(s: State) {
    var v, f := s.server, s.fuzzer;
    v.childStopped && v.childPid in s.procs ==>
      var dead := s.procs[v.childPid].Zombie?;
      && (v.pc == CheckKilled ==> dead == v.wasKilled)
      && (s.ctl != [] || f.pc in {Idle, WriteRequest} ==> dead == f.prevTimedOut)
      && (InRun(s) && !f.handler ==> dead == f.timedOut)
      && (InRun(s) && f.handler ==> !dead)
      && (f.pc == ReadPid && !Asked(s) ==> !dead)
  }

  ghost predicate TimerState(s: State) {
    var v, f := s.server, s.fuzzer;
    && (f.pc in {ArmStart, ReadHello, DisarmStart} ==> v.childPid == 0 && f.childPid == -1)
    && (f.armed || f.handler ==> f.pc in {ReadHello, DisarmStart, ReadStatus, Settle, Disarm})
    && (f.armed ==> !f.handler && !f.timedOut)
    && (f.pc == ArmStart ==> !f.timedOut)
    && (f.handler ==> f.timedOut)
    && (f.handler && f.pc !in {ReadHello, DisarmStart} ==> f.childPid == v.childPid && v.childPid > 0)
    && (f.pc in {WriteRequest, ReadPid, ArmTimer} ==> !f.timedOut)
    && (f.pc in {ArmTimer, ReadStatus, Settle} ==> f.childPid == v.childPid && v.childPid > 0)
    && (f.pc in {Settle, Disarm, Record} ==> f.status == v.status)
    && (f.pc in {Disarm, Record} ==> f.childPid == (if v.childStopped then v.childPid else 0) && v.childPid > 0)
    && (f.pc == ReadStatus && !f.armed && !f.handler ==> f.timedOut)
    && (InRun(s) && f.timedOut && !f.handler && v.childPid in s.procs ==>
          s.procs[v.childPid].Zombie? || s.procs[v.childPid].Reaped?)
  }

  ghost predicate Inv(s: State) {
    InStep(s) && Counted(s) && ChildState(s) && KillsKnown(s) && TimerState(s)
  }

  ghost predicate Pipes(s: State) { InStep(s) && Counted(s) }

  ghost predicate Signals(s: State) { KillsKnown(s) && TimerState(s) }

  lemma ServerKeepsPipes(persistent: bool, s: State)
    requires Inv(s) && Enabled(persistent, s, ServerStep)
    ensures Pipes(ServerNext(s))
  {}

  lemma ServerKeepsChild(persistent: bool, s: State)
    requires Inv(s) && Enabled(persistent, s, ServerStep)
    ensures ChildState(ServerNext(s)) && (s.server.pc != Dead ==> ServerNext(s).server.pc != Dead)
  {}

  lemma ServerKeepsSignals(persistent: bool, s: State)
    requires Inv(s) && Enabled(persistent, s, ServerStep)
    ensures Signals(ServerNext(s))
  {}

  lemma FuzzerKeepsPipes(persistent: bool, s: State)
    requires Inv(s) && Enabled(persistent, s, FuzzerStep)
    ensures Pipes(FuzzerNext(s))
  {
    hide KillsKnown;
  }

  lemma FuzzerKeepsChild(persistent: bool, s: State)
    requires Inv(s) && Enabled(persistent, s, FuzzerStep)
    ensures ChildState(FuzzerNext(s))
  {
    hide KillsKnown, TimerState, Counted;
  }

  lemma FuzzerKeepsSignals(persistent: bool, s: State)
    requires Inv(s) && Enabled(persistent, s, FuzzerStep)
    ensures Signals(FuzzerNext(s))
  {}

  lemma OthersKeepPipes(persistent: bool, s: State, a: Action)
    requires Inv(s) && Enabled(persistent, s, a) && !a.ServerStep? && !a.FuzzerStep?
    ensures Pipes(Apply(persistent, s, a))
  {
    hide KillsKnown;
  }

  lemma OthersKeepChild(persistent: bool, s: State, a: Action)
    requires Inv(s) && Enabled(persistent, s, a) && !a.ServerStep? && !a.FuzzerStep?
    ensures ChildState(Apply(persistent, s, a))
  {
    hide KillsKnown;
  }

  lemma OthersKeepSignals(persistent: bool, s: State, a: Action)
    requires Inv(s) && Enabled(persistent, s, a) && !a.ServerStep? && !a.FuzzerStep?
    ensures Signals(Apply(persistent, s, a))
  {}

  /** Every step of either program, the timer or the child keeps the invariant. */
  lemma StepKeepsInv(persistent: bool, s: State, a: Action)
    requires Inv(s) && Enabled(persistent, s, a)
    ensures Inv(Apply(persistent, s, a))
  {
    hide InStep, Counted, ChildState, KillsKnown, TimerState, ServerNext, FuzzerNext;
    match a
    case ServerStep =>
      ServerKeepsPipes(persistent, s);
      ServerKeepsChild(persistent, s);
      ServerKeepsSignals(persistent, s);
    case FuzzerStep =>
      FuzzerKeepsPipes(persistent, s);
      FuzzerKeepsChild(persistent, s);
      FuzzerKeepsSignals(persistent, s);
    case _ =>
      OthersKeepPipes(persistent, s, a);
      OthersKeepChild(persistent, s, a);
      OthersKeepSignals(persistent, s, a);
  }

  lemma {:induction false} RunInv(persistent: bool, states: seq<State>, steps: seq<Action>, n: nat)
    requires IsRun(persistent, states, steps) && n < |states|
    ensures Inv(states[n])
  {
    if n > 0 {
      RunInv(persistent, states, steps, n - 1);
      StepKeepsInv(persistent, states[n - 1], steps[n - 1]);
    }
  }

  // ---------- what holds over every run ----------

  /** Every child forked before has been reaped when the server forks. */
  lemma ForkFindsNoChild(persistent: bool, states: seq<State>, steps: seq<Action>, n: nat)
    requires IsRun(persistent, states, steps) && n < |steps| && (steps[n].Fork? || steps[n].ForkFails?)
    ensures forall p | p in states[n].procs :: states[n].procs[p] == Reaped
  {
    RunInv(persistent, states, steps, n);
  }

  /** SIGCONT goes to a child whose stop was reported and that nobody killed. */
  lemma ContinueFindsStopped(persistent: bool, states: seq<State>, steps: seq<Action>, n: nat)
    requires IsRun(persistent, states, steps) && n < |steps|
    requires steps[n] == ServerStep && states[n].server.pc == Dispatch
    ensures var s := states[n]; var pid := s.server.childPid;
            pid in s.procs && s.procs[pid] == Stopped(true) && pid !in s.killed
  {
    RunInv(persistent, states, steps, n);
  }

  /** What the fuzzer reads as a pid is the pid of the child of this request, and then comes one status. */
  lemma RepliesInOrder(persistent: bool, states: seq<State>, steps: seq<Action>, n: nat)
    requires IsRun(persistent, states, steps) && n < |steps| && steps[n] == FuzzerStep
    ensures var s := states[n];
            && (s.fuzzer.pc == ReadHello && s.st != [] ==> s.st == [Hello])
            && (s.fuzzer.pc == ReadPid && s.st != [] ==>
                  s.st[0] == Pid(s.server.childPid) && s.server.childPid in s.procs)
            && (s.fuzzer.pc == ReadStatus ==> s.st == [WaitStatus(s.server.status)])
            && (s.fuzzer.pc == Idle ==> s.requests == s.pids == s.statuses && s.ctl == [] && s.st == [])
            && (s.fuzzer.pc == WriteRequest ==> s.server.pc == ReadRequest || (s.server.pc == Dead && s.requests == 0))
  {
    RunInv(persistent, states, steps, n);
  }

  /** Each request gets one pid and then one status before the next request is made. */
  lemma OneReplyPerRequest(persistent: bool, states: seq<State>, steps: seq<Action>, n: nat)
    requires IsRun(persistent, states, steps) && n < |states|
    ensures var s := states[n];
            && s.statuses <= s.pids <= s.requests <= s.statuses + 1
            && (s.fuzzer.pc == WriteRequest ==> s.requests == s.pids == s.statuses)
            && (s.fuzzer.pc == ReadPid ==> s.requests == s.pids + 1)
            && (s.fuzzer.pc == ReadStatus ==> s.requests == s.pids == s.statuses + 1)
  {
    RunInv(persistent, states, steps, n);
  }

  /** fork() fails, or the timer that was armed for the handshake expires and its handler gets to its kill. */
  predicate EndsServer(s: State, a: Action) {
    a.ForkFails? || (a.HandlerKills? && s.fuzzer.pc in {ReadHello, DisarmStart})
  }

  /** The server dies of nothing else: no wait fails, and later timers never take it for the child. */
  lemma {:induction false} ServerEnds(persistent: bool, states: seq<State>, steps: seq<Action>, n: nat)
    requires IsRun(persistent, states, steps) && n < |states|
    ensures states[n].server.pc == Dead <==> exists i :: 0 <= i < n && EndsServer(states[i], steps[i])
  {
    hide Inv, Apply, Enabled, EndsServer;
    if n > 0 {
      ServerEnds(persistent, states, steps, n - 1);
      RunInv(persistent, states, steps, n - 1);
      ServerEndsNow(persistent, states[n - 1], steps[n - 1]);
    }
  }

  lemma ServerEndsNow(persistent: bool, s: State, a: Action)
    requires Inv(s) && Enabled(persistent, s, a)
    ensures Apply(persistent, s, a).server.pc == Dead <==> s.server.pc == Dead || EndsServer(s, a)
  {
    if a == ServerStep { ServerKeepsChild(persistent, s); }
  }

  /** The fuzzer gives up only when the server is dead, and at the latest at the read after that. */
  lemma GivesUpOnDead(persistent: bool, states: seq<State>, steps: seq<Action>, n: nat)
    requires IsRun(persistent, states, steps) && n < |states|
    ensures var s := states[n];
            && (s.fuzzer.pc == Fatal ==> s.server.pc == Dead)
            && (s.server.pc == Dead ==> s.fuzzer.pc in {ReadHello, DisarmStart, Idle, WriteRequest, ReadPid, Fatal})
            && (s.server.pc == Dead && s.fuzzer.pc !in {ReadPid, Fatal} ==> s.requests == 0)
  {
    RunInv(persistent, states, steps, n);
  }

  /** The wait that writes off a killed child never blocks. */
  lemma ReapingNeverBlocks(persistent: bool, states: seq<State>, steps: seq<Action>, n: nat)
    requires IsRun(persistent, states, steps) && n < |states| && states[n].server.pc == ReapKilled
    ensures Enabled(persistent, states[n], ServerStep)
    ensures states[n].server.childPid in states[n].procs && states[n].procs[states[n].server.childPid].Zombie?
  {
    RunInv(persistent, states, steps, n);
  }

  /** A step the programs or the timer can take by themselves. */
  ghost predicate CanMove(persistent: bool, s: State) {
    || Enabled(persistent, s, ServerStep) || Enabled(persistent, s, FuzzerStep) || Enabled(persistent, s, TimerFires)
    || Enabled(persistent, s, HandlerKills) || Enabled(persistent, s, ForkFails)
  }

  /** Nothing ever gets stuck, whatever the child does, until the fuzzer gives up. */
  lemma NeverStuck(persistent: bool, states: seq<State>, steps: seq<Action>, n: nat)
    requires IsRun(persistent, states, steps) && n < |states| && states[n].fuzzer.pc != Fatal
    ensures CanMove(persistent, states[n])
  {
    RunInv(persistent, states, steps, n);
  }

  // ---------- how many steps a request takes ----------

  function FuzzerAhead(s: State): nat {
    match s.fuzzer.pc
    case ArmStart => 7
    case ReadHello => 4
    case DisarmStart => 3
    case Idle => 2
    case WriteRequest => 1
    case ReadPid => 10
    case ArmTimer => 9
    case ReadStatus => 6
    case Settle => 5
    case Disarm => 4
    case Record => 3
    case Fatal => 0
  }

  function ServerAhead(s: State): nat {
    match s.server.pc
    case SayHello => 1
    case ReadRequest => if s.ctl == [] then 0 else 8
    case CheckKilled => 7
    case ReapKilled => 6
    case Dispatch => 5
    case WritePid => 3
    case WaitChild => 2
    case WriteStatus => 1
    case Dead => 0
  }

  function TimerAhead(s: State): nat {
    if s.fuzzer.armed then 2 else if s.fuzzer.handler then 1 else 0
  }

  function ChildAhead(s: State): nat {
    if s.server.childPid in s.procs && s.procs[s.server.childPid].Running? then 1 else 0
  }

  /** The most steps there can be, of either program, the timer and the child, before the next request. */
  function Ahead(s: State): nat {
    FuzzerAhead(s) + ServerAhead(s) + TimerAhead(s) + ChildAhead(s)
  }

  const MAX_STEPS := 18

  /** Every step uses up at least one of those ahead, and a request brings at most MAX_STEPS new ones. */
  lemma StepAdvances(persistent: bool, s: State, a: Action)
    requires Inv(s) && Enabled(persistent, s, a)
    ensures var t := Apply(persistent, s, a);
            && s.requests <= t.requests
            && Ahead(t) + 1 <= Ahead(s) + MAX_STEPS * (t.requests - s.requests)
  {
    hide Inv, Apply, Enabled, Ahead;
    match a
    case ServerStep => ServerAdvances(persistent, s);
    case FuzzerStep => FuzzerAdvances(persistent, s);
    case _ => OthersAdvance(persistent, s, a);
  }

  lemma ServerAdvances(persistent: bool, s: State)
    requires Inv(s) && Enabled(persistent, s, ServerStep)
    ensures Apply(persistent, s, ServerStep).requests == s.requests
    ensures Ahead(Apply(persistent, s, ServerStep)) < Ahead(s)
  {
    hide Counted, KillsKnown, TimerState;
  }

  lemma FuzzerAdvances(persistent: bool, s: State)
    requires Inv(s) && Enabled(persistent, s, FuzzerStep)
    ensures var t := Apply(persistent, s, FuzzerStep);
            && s.requests <= t.requests
            && Ahead(t) + 1 <= Ahead(s) + MAX_STEPS * (t.requests - s.requests)
  {
    hide Counted, KillsKnown;
  }

  lemma OthersAdvance(persistent: bool, s: State, a: Action)
    requires Inv(s) && Enabled(persistent, s, a) && !a.ServerStep? && !a.FuzzerStep?
    ensures Apply(persistent, s, a).requests == s.requests
    ensures Ahead(Apply(persistent, s, a)) < Ahead(s)
  {
    hide Counted, KillsKnown, InStep;
  }

  lemma {:induction false} StepsAdvance(persistent: bool, states: seq<State>, steps: seq<Action>, m: nat, n: nat)
    requires IsRun(persistent, states, steps) && m <= n < |states|
    ensures states[m].requests <= states[n].requests
    ensures n - m + Ahead(states[n]) <= Ahead(states[m]) + MAX_STEPS * (states[n].requests - states[m].requests)
  {
    hide Inv, Apply, Enabled, Ahead;
    if m < n {
      StepsAdvance(persistent, states, steps, m, n - 1);
      RunInv(persistent, states, steps, n - 1);
      StepAdvances(persistent, states[n - 1], steps[n - 1]);
    }
  }

  lemma AheadBounded(s: State)
    requires Inv(s)
    ensures Ahead(s) <= MAX_STEPS
  {}

  /** A run cannot go on for more than MAX_STEPS steps without both replies to every request so far and a new one. */
  lemma RequestsAreAnswered(persistent: bool, states: seq<State>, steps: seq<Action>, n: nat)
    requires IsRun(persistent, states, steps) && n + MAX_STEPS + 1 < |states|
    ensures var s := states[n + MAX_STEPS + 1];
            s.requests > states[n].requests && s.pids >= states[n].requests && s.statuses >= states[n].requests
  {
    StepsAdvance(persistent, states, steps, n, n + MAX_STEPS + 1);
    RunInv(persistent, states, steps, n);
    AheadBounded(states[n]);
    OneReplyPerRequest(persistent, states, steps, n + MAX_STEPS + 1);
  }

  /** After a run that timed out the child is gone or, when it had stopped first, already dead. */
  lemma TimeoutKills(persistent: bool, states: seq<State>, steps: seq<Action>, n: nat)
    requires IsRun(persistent, states, steps) && n < |states| && states[n].fuzzer.pc == Record
    ensures var s := states[n]; var pid := s.server.childPid;
            && pid in s.procs
            && (s.fuzzer.timedOut ==> s.procs[pid].Zombie? || s.procs[pid].Reaped?)
            && (s.fuzzer.status == Stop && !s.fuzzer.timedOut ==> s.procs[pid] == Stopped(true))
  {
    RunInv(persistent, states, steps, n);
  }
}
