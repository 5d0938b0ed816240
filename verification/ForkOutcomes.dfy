/**
  What the fuzzer learns about its children over a whole run of the fork-server
  protocol: how a child ended or that it stopped is what is read as the status of
  its run, and a child runs again exactly when it stopped and was not killed.
 */
module ForkOutcomes {
  import opened ForkServer

  // ---------- the outcome of a run ----------

  /** The outcome of the child's run is settled: it is there to be noticed, was noted, or is on its way. */
  ghost predicate Due(s: State, pid: nat, st: Status) {
    s.server.childPid == pid && pid in s.procs &&
    var v, p := s.server, s.procs[pid];
    || (v.pc in {WritePid, WaitChild} && (if st == Stop then p == Stopped(false) else p == Zombie(st)))
    || (v.pc == WriteStatus && v.status == st)
    || (v.pc == ReadRequest && s.ctl == [] && s.fuzzer.pc in {ReadPid, ArmTimer, ReadStatus} && v.status == st)
  }

  /** A stop is an outcome in persistent mode only, and not if the child is killed before it is noticed. */
  predicate Keeps(persistent: bool, s: State, a: Action, st: Status) {
    st == Stop ==> persistent && !(a == HandlerKills && s.server.pc in {WritePid, WaitChild})
  }

  predicate ReadsStatus(s: State, a: Action) {
    a == FuzzerStep && s.fuzzer.pc == ReadStatus
  }

  lemma ServerKeepsDue(persistent: bool, s: State, pid: nat, st: Status)
    requires Inv(s) && Enabled(persistent, s, ServerStep) && Due(s, pid, st) && (st == Stop ==> persistent)
    ensures Due(ServerNext(s), pid, st)
  {
    hide Counted, KillsKnown;
  }

  lemma FuzzerKeepsDue(persistent: bool, s: State, pid: nat, st: Status)
    requires Inv(s) && Enabled(persistent, s, FuzzerStep) && Due(s, pid, st) && s.fuzzer.pc != ReadStatus
    ensures Due(FuzzerNext(s), pid, st)
  {
    hide Counted, KillsKnown;
  }

  lemma OthersKeepDue(persistent: bool, s: State, a: Action, pid: nat, st: Status)
    requires Inv(s) && Enabled(persistent, s, a) && !a.ServerStep? && !a.FuzzerStep?
    requires Due(s, pid, st) && Keeps(persistent, s, a, st)
    ensures Due(Apply(persistent, s, a), pid, st)
  {
    hide Counted, KillsKnown;
  }

  lemma DueStays(persistent: bool, s: State, a: Action, pid: nat, st: Status)
    requires Inv(s) && Enabled(persistent, s, a) && Due(s, pid, st)
    requires Keeps(persistent, s, a, st) && !ReadsStatus(s, a)
    ensures Due(Apply(persistent, s, a), pid, st)
  {
    hide Inv, Due, Enabled;
    match a
    case ServerStep => ServerKeepsDue(persistent, s, pid, st);
    case FuzzerStep => FuzzerKeepsDue(persistent, s, pid, st);
    case _ => OthersKeepDue(persistent, s, a, pid, st);
  }

  lemma {:induction false} DueUntilRead(persistent: bool, states: seq<State>, steps: seq<Action>, m: nat, n: nat,
                                        pid: nat, st: Status)
    requires IsRun(persistent, states, steps) && m <= n < |states| && Due(states[m], pid, st)
    requires forall i | m <= i < n :: Keeps(persistent, states[i], steps[i], st) && !ReadsStatus(states[i], steps[i])
    ensures Due(states[n], pid, st)
  {
    hide Due, Inv, Enabled, Apply;
    if m < n {
      DueUntilRead(persistent, states, steps, m, n - 1, pid, st);
      RunInv(persistent, states, steps, n - 1);
      DueStays(persistent, states[n - 1], steps[n - 1], pid, st);
    }
  }

  /** What settles it: the child ends or stops by itself, or is killed while it runs or before its stop is noticed. */
  lemma OutcomeSettled(persistent: bool, s: State, a: Action)
    requires Inv(s) && Enabled(persistent, s, a)
    ensures a.ChildEnds? ==> Due(Apply(persistent, s, a), a.who, a.how)
    ensures a.ChildStops? ==> Due(Apply(persistent, s, a), a.who, Stop)
    ensures var pid := s.server.childPid;
            a == HandlerKills && pid in s.procs && (s.procs[pid] == Running || s.procs[pid] == Stopped(false)) ==>
              Due(Apply(persistent, s, a), pid, Signal(true))
  {
    hide Counted;
  }

  /** While an outcome is due somebody can move, without waiting for the timer. */
  lemma DueMoves(persistent: bool, s: State, pid: nat, st: Status)
    requires Inv(s) && Due(s, pid, st) && (st == Stop ==> persistent) && !s.fuzzer.handler
    ensures Enabled(persistent, s, ServerStep) || Enabled(persistent, s, FuzzerStep)
    ensures s.server.pc == WaitChild ==> Enabled(persistent, s, ServerStep) && ServerNext(s).server.status == st
  {
    hide Counted, KillsKnown;
  }

  /** The status that is read is the outcome of the run. */
  lemma OutcomeIsRead(persistent: bool, states: seq<State>, steps: seq<Action>, m: nat, n: nat, pid: nat, st: Status)
    requires IsRun(persistent, states, steps) && m <= n < |steps| && Due(states[m], pid, st)
    requires forall i | m <= i < n :: Keeps(persistent, states[i], steps[i], st) && !ReadsStatus(states[i], steps[i])
    requires ReadsStatus(states[n], steps[n])
    ensures states[n].st == [WaitStatus(st)] && states[n + 1].fuzzer.status == st && states[n].server.childPid == pid
  {
    DueUntilRead(persistent, states, steps, m, n, pid, st);
    RunInv(persistent, states, steps, n);
    DueAtRead(persistent, states[n], pid, st);
  }

  lemma DueAtRead(persistent: bool, s: State, pid: nat, st: Status)
    requires Inv(s) && Due(s, pid, st) && Enabled(persistent, s, FuzzerStep) && s.fuzzer.pc == ReadStatus
    ensures s.st == [WaitStatus(st)] && FuzzerNext(s).fuzzer.status == st
  {
    hide Counted, KillsKnown, ChildState;
  }

  /** A persistent child's stop is noticed at once: the server can go on by itself, and notes the stop. */
  lemma StopIsNoticed(persistent: bool, states: seq<State>, steps: seq<Action>, n: nat)
    requires IsRun(persistent, states, steps) && n < |states| && persistent
    requires var s := states[n];
             s.server.pc == WaitChild && s.server.childPid in s.procs && s.procs[s.server.childPid] == Stopped(false)
    ensures Enabled(persistent, states[n], ServerStep)
    ensures var t := ServerNext(states[n]);
            t.server.pc == WriteStatus && t.server.status == Stop && t.server.childStopped
  {}

  /** And it is what is read as the status, unless the child is killed first; the child can then be resumed. */
  lemma StopIsRead(persistent: bool, states: seq<State>, steps: seq<Action>, m: nat, n: nat, who: nat)
    requires IsRun(persistent, states, steps) && persistent && m < n < |steps| && steps[m] == ChildStops(who)
    requires forall i | m < i < n :: steps[i] != HandlerKills && !ReadsStatus(states[i], steps[i])
    requires ReadsStatus(states[n], steps[n])
    ensures states[n + 1].fuzzer.status == Stop && states[n].server.childPid == who
    ensures who in states[n].procs && (states[n].procs[who] == Stopped(true) <==> !states[n].fuzzer.timedOut)
  {
    hide Inv, Enabled, Due, Apply;
    RunInv(persistent, states, steps, m);
    OutcomeSettled(persistent, states[m], steps[m]);
    OutcomeIsRead(persistent, states, steps, m + 1, n, who, Stop);
    RunInv(persistent, states, steps, n);
    StoppedOrDead(persistent, states[n]);
  }

  lemma StoppedOrDead(persistent: bool, s: State)
    requires Inv(s) && Enabled(persistent, s, FuzzerStep) && s.fuzzer.pc == ReadStatus && s.st == [WaitStatus(Stop)]
    ensures var pid := s.server.childPid;
            pid in s.procs && (s.procs[pid] == Stopped(true) <==> !s.fuzzer.timedOut)
  {
    hide Counted;
  }

  ghost predicate NoStop(s: State) {
    !s.server.childStopped && s.server.status != Stop && s.fuzzer.status != Stop && WaitStatus(Stop) !in s.st
  }

  /** Outside persistent mode no stop is ever noted, sent or read. */
  lemma {:induction false} NoStopIsRead(states: seq<State>, steps: seq<Action>, n: nat)
    requires IsRun(false, states, steps) && n < |states|
    ensures NoStop(states[n])
  {
    if n > 0 {
      NoStopIsRead(states, steps, n - 1);
      RunInv(false, states, steps, n - 1);
      NoStopNext(states[n - 1], steps[n - 1]);
    }
  }

  lemma NoStopNext(s: State, a: Action)
    requires Inv(s) && Enabled(false, s, a) && NoStop(s)
    ensures NoStop(Apply(false, s, a))
  {
    hide Inv, ServerNext, FuzzerNext;
    match a
    case ServerStep => NoStopServed(s);
    case FuzzerStep => NoStopFuzzed(s);
    case _ =>
  }

  lemma NoStopServed(s: State)
    requires Inv(s) && Enabled(false, s, ServerStep) && NoStop(s)
    ensures NoStop(ServerNext(s))
  {
    hide Counted, KillsKnown, TimerState;
  }

  lemma NoStopFuzzed(s: State)
    requires NoStop(s)
    ensures NoStop(FuzzerNext(s))
  {}

  // ---------- which child serves the next request ----------

  /** The child waits to be resumed. */
  ghost predicate Resumable(s: State) {
    s.server.childStopped && s.server.childPid in s.procs && s.procs[s.server.childPid] == Stopped(true)
  }

  /** Where the server has not yet decided between resuming and forking. */
  ghost predicate Undecided(s: State) {
    s.server.pc in {CheckKilled, ReapKilled, Dispatch} || (s.server.pc == ReadRequest && s.ctl != [])
  }

  /**
    From the end of run k to the end of the next: first the child is still pid,
    resumable or not, and later the same one was resumed or a new one was forked.
   */
  ghost predicate Between(s: State, k: nat, pid: nat, known: set<nat>, resumable: bool) {
    s.statuses == k &&
    if s.requests == k || Undecided(s) then
      && s.server.childPid == pid && s.procs.Keys == known && Resumable(s) == resumable
      && (s.requests == k ==> s.fuzzer.pc in {Record, Idle, WriteRequest, Fatal})
    else
      s.server.pc != Dead ==>
        if resumable then s.server.childPid == pid && s.procs.Keys == known else s.server.childPid !in known
  }

  lemma ServerBetween(persistent: bool, s: State, k: nat, pid: nat, known: set<nat>, resumable: bool)
    requires Inv(s) && Enabled(persistent, s, ServerStep) && Between(s, k, pid, known, resumable)
    ensures Between(ServerNext(s), k, pid, known, resumable)
  {}

  lemma FuzzerBetween(persistent: bool, s: State, k: nat, pid: nat, known: set<nat>, resumable: bool)
    requires Inv(s) && Enabled(persistent, s, FuzzerStep) && Between(s, k, pid, known, resumable)
    ensures FuzzerNext(s).statuses == k ==> Between(FuzzerNext(s), k, pid, known, resumable)
  {}

  lemma OthersBetween(persistent: bool, s: State, a: Action, k: nat, pid: nat, known: set<nat>, resumable: bool)
    requires Inv(s) && Enabled(persistent, s, a) && !a.ServerStep? && !a.FuzzerStep?
    requires Between(s, k, pid, known, resumable)
    ensures Between(Apply(persistent, s, a), k, pid, known, resumable)
  {}

  lemma BetweenStays(persistent: bool, s: State, a: Action, k: nat, pid: nat, known: set<nat>, resumable: bool)
    requires Inv(s) && Enabled(persistent, s, a) && Between(s, k, pid, known, resumable) && !ReadsStatus(s, a)
    ensures Between(Apply(persistent, s, a), k, pid, known, resumable)
  {
    hide Inv, Between, Enabled;
    match a
    case ServerStep => ServerBetween(persistent, s, k, pid, known, resumable);
    case FuzzerStep =>
      OnlyReadsCount(persistent, s, k, pid, known, resumable);
      FuzzerBetween(persistent, s, k, pid, known, resumable);
    case _ => OthersBetween(persistent, s, a, k, pid, known, resumable);
  }

  lemma OnlyReadsCount(persistent: bool, s: State, k: nat, pid: nat, known: set<nat>, resumable: bool)
    requires Between(s, k, pid, known, resumable) && s.fuzzer.pc != ReadStatus
    ensures FuzzerNext(s).statuses == k
  {}

  lemma {:induction false} BetweenUntil(persistent: bool, states: seq<State>, steps: seq<Action>, m: nat, n: nat,
                                        k: nat, pid: nat, known: set<nat>, resumable: bool)
    requires IsRun(persistent, states, steps) && m <= n < |states| && Between(states[m], k, pid, known, resumable)
    requires forall i | m <= i < n :: !ReadsStatus(states[i], steps[i])
    ensures Between(states[n], k, pid, known, resumable)
  {
    hide Between, Inv, Enabled, Apply;
    if m < n {
      BetweenUntil(persistent, states, steps, m, n - 1, k, pid, known, resumable);
      RunInv(persistent, states, steps, n - 1);
      BetweenStays(persistent, states[n - 1], steps[n - 1], k, pid, known, resumable);
    }
  }

  lemma EndOfRun(s: State)
    requires Inv(s) && s.fuzzer.pc == Record
    ensures Between(s, s.statuses, s.server.childPid, s.procs.Keys, s.fuzzer.status == Stop && !s.fuzzer.timedOut)
  {}

  lemma PidAtRead(persistent: bool, s: State, k: nat, pid: nat, known: set<nat>, resumable: bool)
    requires Inv(s) && Between(s, k, pid, known, resumable) && s.fuzzer.pc == ReadPid && s.st != []
    ensures s.st[0].Pid? && if resumable then s.st[0].pid == pid && s.procs.Keys == known else s.st[0].pid !in known
  {}

  /**
    The pid that is read next: after a run that ended with a stop and no timeout
    the same child serves again and nothing was forked; after any other run it is
    a new child.
   */
  lemma NextChild(persistent: bool, states: seq<State>, steps: seq<Action>, m: nat, n: nat)
    requires IsRun(persistent, states, steps) && m <= n < |states| && states[m].fuzzer.pc == Record
    requires forall i | m <= i < n :: !ReadsStatus(states[i], steps[i])
    requires states[n].fuzzer.pc == ReadPid && states[n].st != []
    ensures var s, read := states[m], states[n].st[0];
            && read.Pid?
            && if s.fuzzer.status == Stop && !s.fuzzer.timedOut
               then read.pid == s.server.childPid && states[n].procs.Keys == s.procs.Keys
               else read.pid !in s.procs
  {
    hide Inv, Between;
    var s := states[m];
    var resumable := s.fuzzer.status == Stop && !s.fuzzer.timedOut;
    RunInv(persistent, states, steps, m);
    EndOfRun(s);
    BetweenUntil(persistent, states, steps, m, n, s.statuses, s.server.childPid, s.procs.Keys, resumable);
    RunInv(persistent, states, steps, n);
    PidAtRead(persistent, states[n], s.statuses, s.server.childPid, s.procs.Keys, resumable);
  }
}
