/**
  The life of the queue: the initial inputs are calibrated in a dry run, then
  entries are taken up in some order, calibrated again if that failed before,
  trimmed once, and fuzzed, which adds new entries. Only these steps change what
  an entry costs, and never does a scored entry get dearer.
 */
module FuzzLoop {
  import opened Bytes
  import opened Words
  import opened Favorites
  import opened Queue
  import opened QueueLife

  type Trace = s: seq<byte> | |s| == MAP_SIZE witness seq(MAP_SIZE, _ => 0)

  /** The trace of each entry, by its place in the queue: it is the same in every run. */
  type Target = nat -> Trace

  // ---------- the invariant ----------

  ghost function LifeOf(q: QueueEntry): Life
    reads q
  {
    Life(q.len, q.execUs, q.calFailed, q.trimDone, q.wasFuzzed)
  }

  ghost function Lives(f: Fuzzer): (ls: seq<Life>)
    reads f, f.queue
    ensures |ls| == |f.queue|
    ensures forall i | 0 <= i < |f.queue| :: ls[i] == LifeOf(f.queue[i])
  {
    seq(|f.queue|, i requires 0 <= i < |f.queue| reads f, f.queue => LifeOf(f.queue[i]))
  }

  /** An entry was scored, on its own trace, if and only if its last calibration succeeded. */
  ghost predicate ScoredWell(e: QueueEntry, l: Life, hits: Hits<QueueEntry>, trace: seq<byte>) {
    && (e in hits <==> l.calFailed == 0)
    && (e in hits ==> hits[e] == HitBytes(trace) && l.execUs < M32)
  }

  ghost predicate Untried(e: QueueEntry, l: Life, hits: Hits<QueueEntry>) {
    e !in hits && l.calFailed == 0
  }

  /** The first n entries have been calibrated, the others were not yet. */
  ghost predicate History(es: seq<QueueEntry>, ls: seq<Life>, hits: Hits<QueueEntry>, target: Target, n: nat) {
    && n <= |es| == |ls|
    && (forall i, j | 0 <= i < j < |es| :: es[i] != es[j])
    && (forall i: nat | i < n :: ScoredWell(es[i], ls[i], hits, target(i)))
    && (forall i: nat | n <= i < |es| :: Untried(es[i], ls[i], hits))
  }

  /** Also, no scored entry waits for another scoring, and no holder got dearer. */
  ghost predicate Ordinary(f: Fuzzer, target: Target, n: nat)
    reads f, f.traceBits, f.topRated, f.queue
  {
    f.Valid() && f.stale == {} && f.spoiled == {} && History(f.queue, Lives(f), f.hits, target, n)
  }

  /** Every byte somebody was scored on is held by the cheapest of all entries scored on it, the stale ones aside. */
  ghost predicate AllCheapest(f: Fuzzer)
    reads f, f.topRated, f.queue
  {
    forall e, i: nat | ScoredOn(f.hits, e, i) :: CheapestBut(f.Slots(), f.hits, f.stale, f.Factors(), i)
  }

  lemma NothingSpoiled(f: Fuzzer)
    requires f.Valid() && f.spoiled == {}
    ensures AllCheapest(f)
  {
    hide Fuzzer.Valid, CheapestBut;
    forall e, i: nat | ScoredOn(f.hits, e, i)
      ensures CheapestBut(f.Slots(), f.hits, f.stale, f.Factors(), i)
    {
      f.HitInMap(i, e);
      f.HolderInvariant(i, e);
    }
  }

  /** Calibrating the first entry not tried yet, or one that failed before. */
  lemma HistoryGoesOn(es: seq<QueueEntry>, ls: seq<Life>, hits: Hits<QueueEntry>, target: Target, n: nat, i: nat,
                      l: Life, after: Hits<QueueEntry>)
    requires History(es, ls, hits, target, n) && i < |es| && es[i] !in hits && i <= n
    requires if l.calFailed == 0 then after == hits[es[i] := HitBytes(target(i))] && l.execUs < M32
             else after == hits
    ensures History(es, ls[i := l], after, target, if i == n then n + 1 else n)
  {
    hide HitBytes;
    assert l.calFailed != 0 ==> es[i] !in after;
    forall k: nat | k < |es| && k != i
      ensures ls[i := l][k] == ls[k] && es[k] != es[i]
    {}
  }

  /** Marks, and lengths, may change at any time. */
  lemma HistoryKept(es: seq<QueueEntry>, ls: seq<Life>, hits: Hits<QueueEntry>, target: Target, n: nat, i: nat,
                    l: Life)
    requires History(es, ls, hits, target, n) && i < |es|
    requires l.calFailed == ls[i].calFailed && l.execUs == ls[i].execUs
    ensures History(es, ls[i := l], hits, target, n)
  {
    hide HitBytes;
    forall k: nat | k < |es| && k != i ensures ls[i := l][k] == ls[k] {}
  }

  lemma FailedUnscored(es: seq<QueueEntry>, ls: seq<Life>, hits: Hits<QueueEntry>, target: Target, n: nat, i: nat)
    requires History(es, ls, hits, target, n) && i < |es| && (i == n || (i < n && ls[i].calFailed > 0))
    ensures es[i] !in hits
  {
    assert i < n ==> ScoredWell(es[i], ls[i], hits, target(i));
    assert i == n ==> Untried(es[i], ls[i], hits);
  }

  lemma Distinct(es: seq<QueueEntry>, ls: seq<Life>, hits: Hits<QueueEntry>, target: Target, n: nat, i: nat)
    requires History(es, ls, hits, target, n) && i < |es|
    ensures forall k | 0 <= k < |es| && k != i :: es[k] != es[i]
  {}

  /** Only entry i changed. */
  lemma OneChanged(f: Fuzzer, es: seq<QueueEntry>, was: seq<Life>, i: nat)
    requires f.queue == es && |was| == |es| && i < |es|
    requires forall k | 0 <= k < |es| && k != i :: LifeOf(es[k]) == was[k]
    ensures Lives(f) == was[i := LifeOf(es[i])]
  {}

  // ---------- calibration ----------

  /** Calibrates entry i, which was never calibrated with success. */
  method CalibrateCase(f: Fuzzer, target: Target, i: nat, q: QueueEntry, outcome: Calibration, ghost n: nat)
    returns (ok: bool)
    requires Ordinary(f, target, n) && i < |f.queue| && f.queue[i] == q
    requires i == n || (i < n && q.calFailed > 0)
    modifies f`scoreChanged, f`hits, f`stale, f`spoiled, f.traceBits, f.topRated
    modifies q`execUs, q`len, q`calFailed, f.queue`tcRef, f.queue`traceMini
    ensures Ordinary(f, target, if i == n then n + 1 else n) && ok == outcome.Timed?
    ensures Lives(f) == old(Lives(f))[i := Calibrated(old(LifeOf(q)), outcome)]
  {
    hide Fuzzer.Valid, HitBytes, History;
    ghost var was, hits := Lives(f), f.hits;
    FailedUnscored(f.queue, was, hits, target, n, i);
    Distinct(f.queue, was, hits, target, n, i);
    f.BeginCalibration(q);
    match outcome {
      case Failed =>
        ok := false;
      case Timed(execUs) =>
        f.LoadTrace(target(i));
        f.FinishCalibration(q, execUs);
        ok := true;
    }
    OneChanged(f, f.queue, was, i);
    HistoryGoesOn(f.queue, was, hits, target, n, i, LifeOf(q), f.hits);
  }

  /** Calibrates the initial inputs one after the other; one that fails is never calibrated again. */
  method PerformDryRun(f: Fuzzer, target: Target, outcomes: seq<Calibration>) returns (stopped: bool)
    requires Ordinary(f, target, 0)
    modifies f, f.traceBits, f.topRated, f.queue
    ensures f.queue == old(f.queue) && (stopped <==> |outcomes| < |f.queue|)
    ensures Ordinary(f, target, if stopped then |outcomes| else |f.queue|)
    ensures forall k | 0 <= k < |f.queue| :: Lives(f)[k] ==
              if k < |outcomes| then DryCalibrated(old(Lives(f))[k], outcomes[k]) else old(Lives(f))[k]
  {
    hide Ordinary, DryCalibrated, Lives;
    ghost var was := Lives(f);
    var i := 0;
    while i < |f.queue| && i < |outcomes|
      invariant i <= |f.queue| && i <= |outcomes| && f.queue == old(f.queue) && Ordinary(f, target, i)
      invariant forall k | 0 <= k < |f.queue| ::
        Lives(f)[k] == if k < i then DryCalibrated(was[k], outcomes[k]) else was[k]
    {
      DryRun(f, target, i, f.queue[i], outcomes[i]);
      i := i + 1;
    }
    stopped := i < |f.queue|;
  }

  method DryRun(f: Fuzzer, target: Target, i: nat, q: QueueEntry, outcome: Calibration)
    requires Ordinary(f, target, i) && i < |f.queue| && f.queue[i] == q
    modifies f`scoreChanged, f`hits, f`stale, f`spoiled, f.traceBits, f.topRated
    modifies q`execUs, q`len, q`calFailed, f.queue`tcRef, f.queue`traceMini
    ensures Ordinary(f, target, i + 1)
    ensures Lives(f) == old(Lives(f))[i := DryCalibrated(old(LifeOf(q)), outcome)]
  {
    hide Fuzzer.Valid, HitBytes, History;
    var ok := CalibrateCase(f, target, i, q, outcome, i);
    if !ok {
      ghost var was := Lives(f);
      FailedUnscored(f.queue, was, f.hits, target, i + 1, i);
      Distinct(f.queue, was, f.hits, target, i + 1, i);
      f.SetCalFailed(q, CAL_CHANCES);
      OneChanged(f, f.queue, was, i);
      HistoryGoesOn(f.queue, was, f.hits, target, i + 1, i, LifeOf(q), f.hits);
    }
  }

  // ---------- new entries ----------

  method AddUntried(f: Fuzzer, target: Target, len: u32, ghost n: nat) returns (q: QueueEntry)
    requires Ordinary(f, target, n)
    modifies f`queue, f`pendingNotFuzzed
    ensures fresh(q) && f.queue == old(f.queue) + [q] && Ordinary(f, target, n)
    ensures Lives(f) == old(Lives(f)) + [NewLife(len)]
  {
    hide Fuzzer.Valid, HitBytes;
    ghost var was, es := Lives(f), f.queue;
    q := f.AddToQueue(len);
    assert forall k | 0 <= k < |es| :: es[k] == f.queue[k] != q;
    assert Lives(f) == was + [NewLife(len)];
  }

  /** A new entry, calibrated at once. */
  method SaveInput(f: Fuzzer, target: Target, find: Find) returns (ghost q: QueueEntry)
    requires Ordinary(f, target, |f.queue|)
    modifies f`queue, f`pendingNotFuzzed, f`scoreChanged, f`hits, f`stale, f`spoiled
    modifies f.traceBits, f.topRated, f.queue`tcRef, f.queue`traceMini
    ensures fresh(q) && f.queue == old(f.queue) + [q] && Ordinary(f, target, |f.queue|)
    ensures Lives(f) == old(Lives(f)) + [Found(find)]
  {
    hide Fuzzer.Valid, HitBytes, History, Calibrated;
    ghost var n := |f.queue|;
    var entry := AddUntried(f, target, find.len, n);
    q := entry;
    var ok := CalibrateCase(f, target, |f.queue| - 1, entry, find.calibration, n);
  }

  /** The inputs found while an entry is fuzzed enter the queue in order. */
  method SaveInputs(f: Fuzzer, target: Target, finds: seq<Find>) returns (ghost born: seq<QueueEntry>)
    requires Ordinary(f, target, |f.queue|)
    modifies f`queue, f`pendingNotFuzzed, f`scoreChanged, f`hits, f`stale, f`spoiled
    modifies f.traceBits, f.topRated, f.queue`tcRef, f.queue`traceMini
    ensures f.queue == old(f.queue) + born && fresh(born) && Ordinary(f, target, |f.queue|)
    ensures Lives(f) == old(Lives(f)) + FoundAll(finds)
  {
    hide Ordinary, Found, Lives;
    born := [];
    for i := 0 to |finds|
      invariant f.queue == old(f.queue) + born && fresh(born) && Ordinary(f, target, |f.queue|)
      invariant Lives(f) == old(Lives(f)) + FoundAll(finds[..i])
    {
      ghost var q := SaveInput(f, target, finds[i]);
      born := born + [q];
      assert FoundAll(finds[..i + 1]) == FoundAll(finds[..i]) + [Found(finds[i])];
    }
    assert finds[..|finds|] == finds;
  }

  // ---------- one round ----------

  lemma CalibratedEntry(f: Fuzzer, target: Target, i: nat)
    requires Ordinary(f, target, |f.queue|) && i < |f.queue| && f.queue[i].calFailed == 0
    ensures f.queue[i] in f.hits && f.hits[f.queue[i]] == HitBytes(target(i)) && f.queue[i].execUs < M32
  {
    hide Fuzzer.Valid, HitBytes;
    assert ScoredWell(f.queue[i], Lives(f)[i], f.hits, target(i));
  }

  lemma FitsInWord(a: nat, b: nat)
    requires a < M32 && b < M32
    ensures a * b < M64
  {
    MoreTimes(a, b, M32);
  }

  lemma MoreTimes(a: nat, b: nat, c: nat)
    requires b <= c
    ensures a * b <= a * c
  {}

  /** A calibrated entry is trimmed: it gets no dearer, and is scored again unless the trim is given up. */
  method TrimCase(f: Fuzzer, target: Target, i: nat, q: QueueEntry, trim: Trim) returns (stopped: bool)
    requires Ordinary(f, target, |f.queue|) && i < |f.queue| && f.queue[i] == q && q.calFailed == 0
    modifies f`scoreChanged, f`hits, f`stale, f`spoiled, f.traceBits, f.topRated
    modifies q`execUs, q`len, f.queue`tcRef, f.queue`traceMini
    ensures q.len <= old(q.len) && q.Factor() <= old(q.Factor()) && stopped == trim.GivenUp?
    ensures Lives(f) == old(Lives(f))[i := old(LifeOf(q)).(len := TrimmedLen(old(q.len), trim))]
    ensures stopped ==> f.Valid() && f.spoiled == {} && f.stale <= {q}
    ensures !stopped ==> Ordinary(f, target, |f.queue|)
  {
    hide Fuzzer.Valid, HitBytes, History, QueueEntry.Factor;
    ghost var was, hits := Lives(f), f.hits;
    CalibratedEntry(f, target, i);
    Distinct(f.queue, was, hits, target, |f.queue|, i);
    FitsInWord(q.execUs, q.len);
    match trim {
      case Untouched =>
        stopped := false;
      case Shortened(len) =>
        f.LoadTrace(target(i));
        f.FinishTrim(q, Min(len, q.len));
        assert f.hits == hits;
        stopped := false;
      case GivenUp(len) =>
        f.ShorterIsCheaper(q, Min(len, q.len));
        f.SetCost(q, q.execUs, Min(len, q.len));
        stopped := true;
    }
    OneChanged(f, f.queue, was, i);
    HistoryKept(f.queue, was, hits, target, |f.queue|, i, LifeOf(q));
  }

  /** Trimming is not tried again, even when it changed nothing. */
  method TrimOnce(f: Fuzzer, target: Target, i: nat, q: QueueEntry, trim: Trim, stopSoon: bool) returns (stopped: bool)
    requires Ordinary(f, target, |f.queue|) && i < |f.queue| && f.queue[i] == q && q.calFailed == 0
    modifies f`scoreChanged, f`hits, f`stale, f`spoiled, f.traceBits, f.topRated
    modifies q`execUs, q`len, q`trimDone, f.queue`tcRef, f.queue`traceMini
    modifies q`wasFuzzed, f`pendingNotFuzzed, f`pendingFavored
    ensures stopped == (trim.GivenUp? || stopSoon)
    ensures Lives(f) == old(Lives(f))[i := old(LifeOf(q)).(len := TrimmedLen(old(q.len), trim),
                                                           trimDone := old(q.trimDone) || !stopped)]
    ensures !trim.GivenUp? ==> Ordinary(f, target, |f.queue|)
    ensures trim.GivenUp? ==> f.Valid() && f.spoiled == {} && f.stale <= {q}
  {
    hide Fuzzer.Valid, History;
    Distinct(f.queue, Lives(f), f.hits, target, |f.queue|, i);
    stopped := TrimCase(f, target, i, q, trim);
    ghost var was := Lives(f);
    stopped := stopped || stopSoon;
    if stopped {
      f.FinishEntry(q, true);
    } else {
      f.MarkTrimmed(q);
    }
    OneChanged(f, f.queue, was, i);
    if !trim.GivenUp? { HistoryKept(f.queue, was, f.hits, target, |f.queue|, i, LifeOf(q)); }
  }

  /** The end of a round: an entry that was fuzzed is marked, and not pending any more. */
  method Abandon(f: Fuzzer, target: Target, i: nat, q: QueueEntry, stopSoon: bool)
    requires Ordinary(f, target, |f.queue|) && i < |f.queue| && f.queue[i] == q
    modifies q`wasFuzzed, f`pendingNotFuzzed, f`pendingFavored
    ensures Ordinary(f, target, |f.queue|)
    ensures Lives(f) == old(Lives(f))[i :=
      old(LifeOf(q)).(wasFuzzed := old(q.wasFuzzed) || (!stopSoon && q.calFailed == 0))]
  {
    hide Fuzzer.Valid, History;
    ghost var was := Lives(f);
    Distinct(f.queue, was, f.hits, target, |f.queue|, i);
    f.FinishEntry(q, stopSoon);
    OneChanged(f, f.queue, was, i);
    HistoryKept(f.queue, was, f.hits, target, |f.queue|, i, LifeOf(q));
  }

  /** The new entries are what was found, in order; each was scored on its trace if its calibration succeeded. */
  ghost predicate Saved(born: seq<QueueEntry>, finds: seq<Find>, hits: Hits<QueueEntry>, target: Target, n: nat)
    reads born
  {
    && |born| == |finds|
    && forall k | 0 <= k < |born| ::
         && born[k].len == finds[k].len && !born[k].wasFuzzed && !born[k].trimDone
         && (born[k] in hits <==> finds[k].calibration.Timed?)
         && (born[k] in hits ==> hits[born[k]] == HitBytes(target(n + k)))
  }

  lemma BornWell(f: Fuzzer, target: Target, n: nat, born: seq<QueueEntry>, finds: seq<Find>)
    requires Ordinary(f, target, |f.queue|) && |f.queue| == n + |born| && f.queue[n..] == born
    requires Lives(f)[n..] == FoundAll(finds)
    ensures Saved(born, finds, f.hits, target, n)
  {
    hide Fuzzer.Valid, HitBytes;
    assert |born| == |Lives(f)[n..]|;
    forall k | 0 <= k < |born|
      ensures born[k].len == finds[k].len && !born[k].wasFuzzed && !born[k].trimDone
      ensures born[k] in f.hits <==> finds[k].calibration.Timed?
      ensures born[k] in f.hits ==> f.hits[born[k]] == HitBytes(target(n + k))
    {
      assert Lives(f)[n..][k] == Lives(f)[n + k] == Found(finds[k]);
      assert born[k] == f.queue[n..][k] == f.queue[n + k];
      assert ScoredWell(f.queue[n + k], Lives(f)[n + k], f.hits, target(n + k));
    }
  }

  /** Calibrates again an entry that failed before, as long as it has chances left. */
  method Recalibrate(f: Fuzzer, target: Target, q: QueueEntry, r: Round) returns (ok: bool)
    requires Ordinary(f, target, |f.queue|) && r.entry < |f.queue| && f.queue[r.entry] == q
    modifies f`scoreChanged, f`hits, f`stale, f`spoiled, f.traceBits, f.topRated
    modifies q`execUs, q`len, q`calFailed, f.queue`tcRef, f.queue`traceMini
    ensures Ordinary(f, target, |f.queue|) && ok == PastCalibration(old(LifeOf(q)), r)
    ensures Lives(f) == old(Lives(f))[r.entry := Recalibrated(old(LifeOf(q)), r)]
  {
    hide Ordinary, Lives;
    ok := true;
    if q.calFailed > 0 {
      ok := false;
      if q.calFailed < CAL_CHANCES {
        ok := CalibrateCase(f, target, r.entry, q, r.calibration, |f.queue|);
      }
      if r.stop == InCalibration {
        ok := false;
      }
    }
  }

  /** Trims the entry unless that was done before. */
  method TrimStage(f: Fuzzer, target: Target, q: QueueEntry, r: Round, ghost l: Life) returns (stopped: bool)
    requires Ordinary(f, target, |f.queue|) && r.entry < |f.queue| && f.queue[r.entry] == q
    requires PastCalibration(l, r) && LifeOf(q) == Recalibrated(l, r)
    modifies f`scoreChanged, f`hits, f`stale, f`spoiled, f.traceBits, f.topRated
    modifies q`execUs, q`len, q`trimDone, f.queue`tcRef, f.queue`traceMini
    modifies q`wasFuzzed, f`pendingNotFuzzed, f`pendingFavored
    ensures stopped == !PastTrim(f.dumbMode, l, r)
    ensures Lives(f) == old(Lives(f))[r.entry := Trimmed(f.dumbMode, l, r)]
    ensures !stopped ==> Ordinary(f, target, |f.queue|)
    ensures stopped ==> f.Valid() && f.spoiled == {} && f.stale <= {q}
  {
    hide Ordinary, Fuzzer.Valid;
    stopped := false;
    if !f.dumbMode && !q.trimDone {
      stopped := TrimOnce(f, target, r.entry, q, r.trim, r.stop == InTrim);
      if stopped && !r.trim.GivenUp? { StillValid(f, target, |f.queue|); }
    }
  }

  lemma StillValid(f: Fuzzer, target: Target, n: nat)
    requires Ordinary(f, target, n)
    ensures f.Valid() && f.spoiled == {} && f.stale == {}
  {}

  /** The stages themselves. */
  method FuzzStages(f: Fuzzer, target: Target, q: QueueEntry, r: Round)
    returns (stopped: bool, ghost born: seq<QueueEntry>)
    requires Ordinary(f, target, |f.queue|) && r.entry < |f.queue| && f.queue[r.entry] == q && q.calFailed == 0
    modifies f`queue, f`pendingNotFuzzed, f`scoreChanged, f`hits, f`stale, f`spoiled
    modifies f.traceBits, f.topRated, f.queue`tcRef, f.queue`traceMini, q`wasFuzzed, f`pendingFavored
    ensures stopped == (r.stop == Later) && Ordinary(f, target, |f.queue|)
    ensures f.queue == old(f.queue) + born && fresh(born) && Saved(born, r.finds, f.hits, target, |old(f.queue)|)
    ensures Lives(f) == old(Lives(f))[r.entry := old(LifeOf(q)).(wasFuzzed := old(q.wasFuzzed) || r.stop != Later)]
                        + FoundAll(r.finds)
  {
    hide Ordinary, Lives, FoundAll, Saved;
    ghost var n := |f.queue|;
    born := SaveInputs(f, target, r.finds);
    assert LifeOf(q) == Lives(f)[r.entry] == old(Lives(f))[r.entry];
    stopped := r.stop == Later;
    Abandon(f, target, r.entry, q, stopped);
    assert f.queue[n..] == born && Lives(f)[n..] == FoundAll(r.finds);
    BornWell(f, target, n, born, r.finds);
  }

  /** The three ways a round can go. */
  lemma RoundInSteps(dumbMode: bool, ls: seq<Life>, r: Round)
    requires r.entry < |ls|
    ensures var l, e := ls[r.entry], r.entry; var c, t := Recalibrated(l, r), Trimmed(dumbMode, l, r);
            if !PastCalibration(l, r) then
              && !PastTrim(dumbMode, l, r) && Stops(dumbMode, l, r) == (r.stop == InCalibration)
              && Played(dumbMode, ls, r) ==
                   ls[e := c][e := c.(wasFuzzed := c.wasFuzzed || (r.stop != InCalibration && c.calFailed == 0))]
            else if !PastTrim(dumbMode, l, r) then
              Stops(dumbMode, l, r) && Played(dumbMode, ls, r) == ls[e := c][e := t]
            else
              && c.calFailed == 0 && t.calFailed == 0 && Stops(dumbMode, l, r) == (r.stop == Later)
              && Played(dumbMode, ls, r) ==
                   ls[e := c][e := t][e := t.(wasFuzzed := t.wasFuzzed || r.stop != Later)] + FoundAll(r.finds)
  {}

  /**
    Fuzzes one entry; of what lies between the stages only the new entries touch
    the queue. Everything found enters the queue, in order, if and only if the
    entry gets past calibration and trimming.
   */
  method FuzzOne(f: Fuzzer, target: Target, r: Round) returns (stopped: bool, ghost born: seq<QueueEntry>)
    requires Ordinary(f, target, |f.queue|) && r.entry < |f.queue|
    modifies f, f.traceBits, f.topRated, f.queue
    ensures f.queue == old(f.queue) + born && fresh(born)
    ensures Lives(f) == Played(f.dumbMode, old(Lives(f)), r)
    ensures stopped == Stops(f.dumbMode, old(Lives(f))[r.entry], r)
    ensures !PastTrim(f.dumbMode, old(Lives(f))[r.entry], r) ==> born == []
    ensures PastTrim(f.dumbMode, old(Lives(f))[r.entry], r) ==> Saved(born, r.finds, f.hits, target, |old(f.queue)|)
    ensures !stopped ==> Ordinary(f, target, |f.queue|)
    ensures stopped ==> f.Valid() && f.spoiled == {} && f.stale <= {old(f.queue)[r.entry]}
  {
    hide Ordinary, Fuzzer.Valid, HitBytes, Lives, Calibrated, Recalibrated, FoundAll, Saved;
    hide Played, PastTrim, PastCalibration, Trimmed, Stops;
    ghost var was, l := Lives(f), Lives(f)[r.entry];
    RoundInSteps(f.dumbMode, was, r);
    var q := f.queue[r.entry];
    born := [];
    var ok := Recalibrate(f, target, q, r);
    if !ok {
      stopped := r.stop == InCalibration;
      Abandon(f, target, r.entry, q, stopped);
      StillValid(f, target, |f.queue|);
      return;
    }
    stopped := TrimStage(f, target, q, r, l);
    if stopped {
      return;
    }
    stopped, born := FuzzStages(f, target, q, r);
    StillValid(f, target, |f.queue|);
  }

  // ---------- whole runs ----------

  method Cull(f: Fuzzer, target: Target, ghost n: nat)
    requires Ordinary(f, target, n)
    modifies f`scoreChanged, f`queuedFavored, f`pendingFavored, f.queue`favored
    ensures Ordinary(f, target, n) && Lives(f) == old(Lives(f))
    ensures !f.dumbMode ==> CoveredBy(f.Slots(), f.hits, f.Favored())
  {
    hide Fuzzer.Valid, History, CoveredBy;
    f.CullQueue();
    assert Lives(f) == old(Lives(f));
  }

  method ReadTestcases(dumbMode: bool, target: Target, lens: seq<u32>) returns (f: Fuzzer)
    ensures fresh(f) && fresh(f.traceBits) && fresh(f.topRated) && fresh(f.queue) && f.dumbMode == dumbMode
    ensures |f.queue| == |lens| && Ordinary(f, target, 0)
    ensures forall k | 0 <= k < |lens| :: Lives(f)[k] == NewLife(lens[k])
  {
    hide Fuzzer.Valid;
    f := new Fuzzer(dumbMode);
    for i := 0 to |lens|
      invariant fresh(f) && fresh(f.traceBits) && fresh(f.topRated) && fresh(f.queue) && f.dumbMode == dumbMode
      invariant |f.queue| == i && Ordinary(f, target, 0)
      invariant forall k | 0 <= k < i :: Lives(f)[k] == NewLife(lens[k])
    {
      var q := AddUntried(f, target, lens[i], 0);
    }
  }

  /** Reading and calibrating the initial inputs. */
  method Begin(dumbMode: bool, target: Target, lens: seq<u32>, outcomes: seq<Calibration>)
    returns (f: Fuzzer, stopped: bool)
    ensures fresh(f) && fresh(f.traceBits) && fresh(f.topRated) && fresh(f.queue) && f.dumbMode == dumbMode
    ensures f.Valid() && f.spoiled == {} && f.stale == {}
    ensures |f.queue| == |lens| && (!stopped ==> Ordinary(f, target, |f.queue|))
    ensures stopped == (|outcomes| < |lens|) && Lives(f) == DryRunOf(lens, outcomes)
  {
    hide *;
    f := ReadTestcases(dumbMode, target, lens);
    stopped := PerformDryRun(f, target, outcomes);
    DryRunAt(lens, outcomes, Lives(f));
    ghost var n := if stopped then |outcomes| else |f.queue|;
    Cull(f, target, n);
    StillValid(f, target, n);
  }

  /** One round, after choosing the favorites anew. */
  method Play(f: Fuzzer, target: Target, r: Round, ghost rest: seq<Round>) returns (stopped: bool)
    requires Ordinary(f, target, |f.queue|)
    modifies f, f.traceBits, f.topRated, f.queue
    ensures forall e | e in f.queue :: e in old(f.queue) || fresh(e)
    ensures f.Valid() && f.spoiled == {} && |f.stale| <= 1
    ensures !stopped ==> Ordinary(f, target, |f.queue|)
    ensures PlayedAll(f.dumbMode, old(Lives(f)), [r] + rest) ==
            if stopped then Lives(f) else PlayedAll(f.dumbMode, Lives(f), rest)
    ensures Halts(f.dumbMode, old(Lives(f)), [r] + rest) == (stopped || Halts(f.dumbMode, Lives(f), rest))
  {
    hide Ordinary, Fuzzer.Valid, Lives, Played, Stops, CoveredBy, PastTrim, Saved;
    assert ([r] + rest)[1..] == rest;
    Cull(f, target, |f.queue|);
    stopped := false;
    if r.entry < |f.queue| {
      ghost var q, born := f.queue[r.entry], [];
      stopped, born := FuzzOne(f, target, r);
      if stopped { AtMostOne(f.stale, q); } else { StillValid(f, target, |f.queue|); }
    } else {
      StillValid(f, target, |f.queue|);
    }
  }

  /**
    A whole run of the fuzzer. Whatever the inputs, the outcomes of calibration,
    the order of the entries and the finds, every byte is held by the cheapest of
    all entries ever scored on it. Only when the fuzzer is stopped in the middle
    of a trim may the entry being trimmed be cheaper than the record says. The
    queue is the initial inputs followed by everything found, each as far as the
    rounds took it.
   */
  method Fuzz(dumbMode: bool, target: Target, lens: seq<u32>, outcomes: seq<Calibration>, rounds: seq<Round>)
    returns (f: Fuzzer, stopped: bool)
    ensures f.Valid() && AllCheapest(f) && |f.stale| <= 1
    ensures !stopped ==> f.stale == {} && Ordinary(f, target, |f.queue|)
    ensures Lives(f) ==
      if |outcomes| < |lens| then DryRunOf(lens, outcomes)
      else PlayedAll(dumbMode, DryRunOf(lens, outcomes), rounds)
    ensures stopped <==> |outcomes| < |lens| || Halts(dumbMode, DryRunOf(lens, outcomes), rounds)
  {
    hide *;
    f, stopped := Begin(dumbMode, target, lens, outcomes);
    var n := 0;
    ghost var end := if stopped then Lives(f) else PlayedAll(dumbMode, Lives(f), rounds);
    ghost var halts := stopped || Halts(dumbMode, Lives(f), rounds);
    while n < |rounds| && !stopped
      invariant n <= |rounds|
      invariant fresh(f) && fresh(f.traceBits) && fresh(f.topRated) && fresh(f.queue) && f.dumbMode == dumbMode
      invariant f.Valid() && f.spoiled == {} && |f.stale| <= 1
      invariant !stopped ==> Ordinary(f, target, |f.queue|)
      invariant end == if stopped then Lives(f) else PlayedAll(dumbMode, Lives(f), rounds[n..])
      invariant halts == (stopped || Halts(dumbMode, Lives(f), rounds[n..]))
      decreases |rounds| - n
    {
      assert rounds[n..] == [rounds[n]] + rounds[n + 1..];
      stopped := Play(f, target, rounds[n], rounds[n + 1..]);
      assert forall i | 0 <= i < |f.queue| :: f.queue[i] in f.queue;
      n := n + 1;
    }
    NothingSpoiled(f);
    NothingPlayed(dumbMode, Lives(f));
    if !stopped { StillValid(f, target, |f.queue|); }
  }

  lemma AtMostOne<T>(s: set<T>, x: T)
    requires s <= {x}
    ensures |s| <= 1
  {
    assert s == {} || s == {x};
  }
}
