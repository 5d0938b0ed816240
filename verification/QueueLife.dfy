/**
  What happens to the entries of the queue while the fuzzer runs, up to scoring:
  calibrated with success or not, trimmed, fuzzed, and joined by what is found.
 */
module QueueLife {
  import opened Bytes
  import opened Words

  const CAL_CHANCES := 3

  /** A time below 2^32 microseconds, so that 64 bits hold the cost. */
  datatype Calibration = Failed | Timed(execUs: u32)

  /** A trim given up, because the fuzzer is asked to stop, leaves the length without a scoring. */
  datatype Trim = Untouched | Shortened(len: u32) | GivenUp(len: u32)

  /** An input with new coverage. */
  datatype Find = Find(len: u32, calibration: Calibration)

  datatype Moment = Never | InCalibration | InTrim | Later

  /** What happens while one entry is fuzzed, and when the fuzzer is asked to stop. */
  datatype Round = Round(entry: nat, calibration: Calibration, trim: Trim, finds: seq<Find>, stop: Moment)

  /** What the run so far made of an entry. */
  datatype Life = Life(len: u32, execUs: u64, calFailed: nat, trimDone: bool, wasFuzzed: bool)

  // ---------- one entry ----------

  function NewLife(len: u32): Life {
    Life(len, 0, 0, false, false)
  }

  function Calibrated(l: Life, c: Calibration): Life {
    if c.Timed? then l.(execUs := c.execUs, calFailed := 0) else l.(calFailed := l.calFailed + 1)
  }

  /** An initial input that fails is never calibrated again. */
  function DryCalibrated(l: Life, c: Calibration): Life {
    if c.Timed? then Calibrated(l, c) else l.(calFailed := CAL_CHANCES)
  }

  function Found(find: Find): Life {
    Calibrated(NewLife(find.len), find.calibration)
  }

  function TrimmedLen(len: u32, trim: Trim): u32 {
    if trim.Untouched? then len else Min(trim.len, len)
  }

  /** An entry that failed before is calibrated again, as long as it has chances left. */
  function Recalibrated(l: Life, r: Round): Life {
    if 0 < l.calFailed < CAL_CHANCES then Calibrated(l, r.calibration) else l
  }

  predicate PastCalibration(l: Life, r: Round) {
    Recalibrated(l, r).calFailed == 0 && !(l.calFailed > 0 && r.stop == InCalibration)
  }

  predicate Trims(dumbMode: bool, l: Life, r: Round) {
    PastCalibration(l, r) && !dumbMode && !l.trimDone
  }

  /** The entry is fuzzed: inputs derived from it are run. */
  predicate PastTrim(dumbMode: bool, l: Life, r: Round) {
    PastCalibration(l, r) && !(Trims(dumbMode, l, r) && (r.trim.GivenUp? || r.stop == InTrim))
  }

  predicate Stops(dumbMode: bool, l: Life, r: Round) {
    if !PastCalibration(l, r) then r.stop == InCalibration
    else PastTrim(dumbMode, l, r) ==> r.stop == Later
  }

  function Trimmed(dumbMode: bool, l: Life, r: Round): Life {
    var c := Recalibrated(l, r);
    if Trims(dumbMode, l, r) then c.(len := TrimmedLen(l.len, r.trim), trimDone := PastTrim(dumbMode, l, r)) else c
  }

  function Fuzzed(dumbMode: bool, l: Life, r: Round): Life {
    Trimmed(dumbMode, l, r).(wasFuzzed := l.wasFuzzed || (PastTrim(dumbMode, l, r) && r.stop != Later))
  }

  // ---------- the queue ----------

  function FoundAll(finds: seq<Find>): (ls: seq<Life>)
    ensures |ls| == |finds| && forall k | 0 <= k < |finds| :: ls[k] == Found(finds[k])
  {
    seq(|finds|, k requires 0 <= k < |finds| => Found(finds[k]))
  }

  function Played(dumbMode: bool, ls: seq<Life>, r: Round): seq<Life>
    requires r.entry < |ls|
  {
    ls[r.entry := Fuzzed(dumbMode, ls[r.entry], r)]
      + if PastTrim(dumbMode, ls[r.entry], r) then FoundAll(r.finds) else []
  }

  /** The rounds one after the other, until the fuzzer stops. */
  function PlayedAll(dumbMode: bool, ls: seq<Life>, rounds: seq<Round>): seq<Life>
    decreases |rounds|
  {
    if rounds == [] then ls
    else if rounds[0].entry >= |ls| then PlayedAll(dumbMode, ls, rounds[1..])
    else if Stops(dumbMode, ls[rounds[0].entry], rounds[0]) then Played(dumbMode, ls, rounds[0])
    else PlayedAll(dumbMode, Played(dumbMode, ls, rounds[0]), rounds[1..])
  }

  /** The fuzzer is asked to stop in one of the rounds, and notices. */
  predicate Halts(dumbMode: bool, ls: seq<Life>, rounds: seq<Round>)
    decreases |rounds|
  {
    if rounds == [] then false
    else if rounds[0].entry >= |ls| then Halts(dumbMode, ls, rounds[1..])
    else if Stops(dumbMode, ls[rounds[0].entry], rounds[0]) then true
    else Halts(dumbMode, Played(dumbMode, ls, rounds[0]), rounds[1..])
  }

  lemma NothingPlayed(dumbMode: bool, ls: seq<Life>)
    ensures PlayedAll(dumbMode, ls, []) == ls && !Halts(dumbMode, ls, [])
  {}

  /** After the dry run, which ends early when there are fewer outcomes than inputs. */
  function DryRunOf(lens: seq<u32>, outcomes: seq<Calibration>): seq<Life> {
    seq(|lens|, i requires 0 <= i < |lens| =>
      if i < |outcomes| then DryCalibrated(NewLife(lens[i]), outcomes[i]) else NewLife(lens[i]))
  }

  lemma DryRunAt(lens: seq<u32>, outcomes: seq<Calibration>, ls: seq<Life>)
    requires |ls| == |lens|
    requires forall k | 0 <= k < |ls| ::
      ls[k] == if k < |outcomes| then DryCalibrated(NewLife(lens[k]), outcomes[k]) else NewLife(lens[k])
    ensures ls == DryRunOf(lens, outcomes)
  {}

  // ---------- one round ----------

  /** Exactly when an entry is fuzzed, and so what is found in the round enters the queue. */
  lemma QueueGrows(dumbMode: bool, ls: seq<Life>, r: Round)
    requires r.entry < |ls|
    ensures var l, after := ls[r.entry], Played(dumbMode, ls, r);
            var ready := l.calFailed == 0 ||
              (l.calFailed < 3 && r.calibration.Timed? && r.stop != InCalibration);
            var trimmed := dumbMode || l.trimDone || (!r.trim.GivenUp? && r.stop != InTrim);
            && |after| == |ls| + (if ready && trimmed then |r.finds| else 0)
            && (after[r.entry].wasFuzzed <==> l.wasFuzzed || (ready && trimmed && r.stop != Later))
            && forall k | |ls| <= k < |after| :: after[k] ==
                 if r.finds[k - |ls|].calibration.Timed?
                 then Life(r.finds[k - |ls|].len, r.finds[k - |ls|].calibration.execUs, 0, false, false)
                 else Life(r.finds[k - |ls|].len, 0, 1, false, false)
  {}

  /** What a round may change about the entry itself, and that it changes no other. */
  lemma RoundChanges(dumbMode: bool, ls: seq<Life>, r: Round, i: nat)
    requires r.entry < |ls| && i < |ls|
    ensures var l, after := ls[i], Played(dumbMode, ls, r)[i];
            && (i != r.entry ==> after == l)
            && (l.calFailed == 0 || l.calFailed >= 3 ==>
                  after.calFailed == l.calFailed && after.execUs == l.execUs)
            && (i == r.entry && 0 < l.calFailed < 3 ==>
                  after.calFailed == (if r.calibration.Timed? then 0 else l.calFailed + 1)
                  && after.execUs == if r.calibration.Timed? then r.calibration.execUs else l.execUs)
            && (after.trimDone <==> l.trimDone || (i == r.entry && !dumbMode && PastTrim(dumbMode, l, r)))
            && after.len == if i == r.entry && !dumbMode && !l.trimDone && PastCalibration(l, r) && !r.trim.Untouched?
                            then Min(r.trim.len, l.len) else l.len
  {}

  /** When a request to stop ends the run: in a calibration, in a trim, or after fuzzing, if the round gets there. */
  lemma RoundStops(dumbMode: bool, ls: seq<Life>, r: Round)
    requires r.entry < |ls|
    ensures var l := ls[r.entry];
            var calibrated := l.calFailed == 0 || (l.calFailed < 3 && r.calibration.Timed? && r.stop != InCalibration);
            var trimmed := dumbMode || l.trimDone || (!r.trim.GivenUp? && r.stop != InTrim);
            Halts(dumbMode, ls, [r]) <==>
              || (l.calFailed > 0 && r.stop == InCalibration)
              || (calibrated && !trimmed)
              || (calibrated && trimmed && r.stop == Later)
  {
    NothingPlayed(dumbMode, Played(dumbMode, ls, r));
  }

  // ---------- whole runs ----------

  /** Rounds after a stop do not happen; without one the run goes on where it was. */
  lemma {:induction false} RunInTwo(dumbMode: bool, ls: seq<Life>, a: seq<Round>, b: seq<Round>)
    ensures PlayedAll(dumbMode, ls, a + b) ==
            if Halts(dumbMode, ls, a) then PlayedAll(dumbMode, ls, a)
            else PlayedAll(dumbMode, PlayedAll(dumbMode, ls, a), b)
    ensures Halts(dumbMode, ls, a + b) <==>
            Halts(dumbMode, ls, a) || Halts(dumbMode, PlayedAll(dumbMode, ls, a), b)
    decreases |a|
  {
    hide Played, Stops;
    if a == [] {
      assert a + b == b;
    } else {
      assert (a + b)[0] == a[0] && (a + b)[1..] == a[1..] + b;
      if a[0].entry >= |ls| {
        RunInTwo(dumbMode, ls, a[1..], b);
      } else if !Stops(dumbMode, ls[a[0].entry], a[0]) {
        RunInTwo(dumbMode, Played(dumbMode, ls, a[0]), a[1..], b);
      }
    }
  }

  /** No entry leaves the queue; none gets longer; trimming is done once, and a calibration that succeeded is final. */
  predicate Outlives(l: Life, later: Life) {
    && later.len <= l.len && (l.wasFuzzed ==> later.wasFuzzed)
    && (l.trimDone ==> later.trimDone && later.len == l.len)
    && (l.calFailed == 0 ==> later.calFailed == 0 && later.execUs == l.execUs)
    && (l.calFailed >= 3 ==> later == l)
  }

  lemma {:induction false} RunKeeps(dumbMode: bool, ls: seq<Life>, rounds: seq<Round>, i: nat)
    requires i < |ls|
    ensures |ls| <= |PlayedAll(dumbMode, ls, rounds)| && Outlives(ls[i], PlayedAll(dumbMode, ls, rounds)[i])
    decreases |rounds|
  {
    if rounds != [] {
      if rounds[0].entry >= |ls| {
        RunKeeps(dumbMode, ls, rounds[1..], i);
      } else if !Stops(dumbMode, ls[rounds[0].entry], rounds[0]) {
        RunKeeps(dumbMode, Played(dumbMode, ls, rounds[0]), rounds[1..], i);
      }
    }
  }

  /** What holds of every entry in every run. */
  predicate Sound(dumbMode: bool, l: Life) {
    && l.calFailed <= 3
    && (l.wasFuzzed ==> l.calFailed == 0 && (dumbMode || l.trimDone))
    && (l.trimDone ==> l.calFailed == 0 && !dumbMode)
  }

  /** Only calibrated entries are trimmed, only trimmed ones fuzzed, and no entry fails more often than allowed. */
  lemma {:induction false} RunIsSound(dumbMode: bool, ls: seq<Life>, rounds: seq<Round>)
    requires forall l | l in ls :: Sound(dumbMode, l)
    ensures forall l | l in PlayedAll(dumbMode, ls, rounds) :: Sound(dumbMode, l)
    decreases |rounds|
  {
    if rounds != [] {
      if rounds[0].entry >= |ls| {
        RunIsSound(dumbMode, ls, rounds[1..]);
      } else {
        var after := Played(dumbMode, ls, rounds[0]);
        assert ls[rounds[0].entry] in ls;
        assert Sound(dumbMode, Fuzzed(dumbMode, ls[rounds[0].entry], rounds[0]));
        assert forall l | l in after :: Sound(dumbMode, l);
        if !Stops(dumbMode, ls[rounds[0].entry], rounds[0]) {
          RunIsSound(dumbMode, after, rounds[1..]);
        }
      }
    }
  }

  lemma DryRunIsSound(dumbMode: bool, lens: seq<u32>, outcomes: seq<Calibration>)
    ensures |DryRunOf(lens, outcomes)| == |lens|
    ensures forall l | l in DryRunOf(lens, outcomes) :: Sound(dumbMode, l) && !l.wasFuzzed && !l.trimDone
    ensures forall i | 0 <= i < |lens| ::
      && DryRunOf(lens, outcomes)[i].len == lens[i]
      && (i < |outcomes| && outcomes[i].Failed? <==> DryRunOf(lens, outcomes)[i].calFailed != 0)
      && (i < |outcomes| && outcomes[i].Failed? ==> DryRunOf(lens, outcomes)[i].calFailed >= 3)
      && (i < |outcomes| && outcomes[i].Timed? ==> DryRunOf(lens, outcomes)[i].execUs == outcomes[i].execUs)
  {}

  /** An initial input that failed its calibration is left alone for good. */
  lemma FailedInputsRest(dumbMode: bool, lens: seq<u32>, outcomes: seq<Calibration>, rounds: seq<Round>, i: nat)
    requires i < |lens| && i < |outcomes| && outcomes[i].Failed?
    ensures i < |PlayedAll(dumbMode, DryRunOf(lens, outcomes), rounds)|
    ensures var l := PlayedAll(dumbMode, DryRunOf(lens, outcomes), rounds)[i];
            l.len == lens[i] && !l.wasFuzzed && !l.trimDone && l.calFailed != 0
  {
    var ls := DryRunOf(lens, outcomes);
    DryRunIsSound(dumbMode, lens, outcomes);
    assert ls[i] in ls;
    RunKeeps(dumbMode, ls, rounds, i);
  }

  /** Nobody asks the fuzzer to stop, and the rounds take up initial inputs only. */
  predicate Undisturbed(rounds: seq<Round>, n: nat) {
    forall r | r in rounds :: r.entry < n && r.stop == Never && !r.trim.GivenUp?
  }

  function AllFinds(rounds: seq<Round>): seq<Find> {
    if rounds == [] then [] else rounds[0].finds + AllFinds(rounds[1..])
  }

  lemma UndisturbedEntry(dumbMode: bool, l: Life, r: Round)
    requires l.calFailed == 0 && r.stop == Never && !r.trim.GivenUp?
    ensures PastTrim(dumbMode, l, r) && !Stops(dumbMode, l, r)
    ensures Fuzzed(dumbMode, l, r).wasFuzzed && Fuzzed(dumbMode, l, r).calFailed == 0
  {}

  lemma UndisturbedRound(dumbMode: bool, ls: seq<Life>, r: Round, n: nat)
    requires r.entry < n <= |ls| && ls[r.entry].calFailed == 0 && r.stop == Never && !r.trim.GivenUp?
    ensures !Stops(dumbMode, ls[r.entry], r)
    ensures var next := Played(dumbMode, ls, r);
            && |next| == |ls| + |r.finds| && next[r.entry].wasFuzzed && next[r.entry].calFailed == 0
            && (forall i | 0 <= i < |ls| && i != r.entry :: next[i] == ls[i])
            && (forall k | 0 <= k < |r.finds| :: next[|ls| + k] == Found(r.finds[k]))
  {
    hide PastTrim, Stops, Fuzzed, Found;
    UndisturbedEntry(dumbMode, ls[r.entry], r);
  }

  /** Then the queue ends up with the initial inputs, followed by everything found, in order. */
  lemma {:induction false} NothingLost(dumbMode: bool, ls: seq<Life>, rounds: seq<Round>, n: nat)
    requires n <= |ls| && Undisturbed(rounds, n) && forall i | 0 <= i < n :: ls[i].calFailed == 0
    ensures var after := PlayedAll(dumbMode, ls, rounds);
            && |after| == |ls| + |AllFinds(rounds)|
            && (forall i | n <= i < |ls| :: after[i] == ls[i])
            && (forall k | 0 <= k < |AllFinds(rounds)| ::
                  && after[|ls| + k].len == AllFinds(rounds)[k].len
                  && (after[|ls| + k].calFailed == 0 <==> AllFinds(rounds)[k].calibration.Timed?))
            && (forall r | r in rounds :: after[r.entry].wasFuzzed)
    decreases |rounds|
  {
    hide Played, Stops;
    if rounds != [] {
      var r, rest := rounds[0], rounds[1..];
      assert r in rounds;
      UndisturbedRound(dumbMode, ls, r, n);
      var next := Played(dumbMode, ls, r);
      NothingLost(dumbMode, next, rest, n);
      RunKeeps(dumbMode, next, rest, r.entry);
      var after := PlayedAll(dumbMode, ls, rounds);
      forall k | 0 <= k < |AllFinds(rounds)|
        ensures after[|ls| + k].len == AllFinds(rounds)[k].len
        ensures after[|ls| + k].calFailed == 0 <==> AllFinds(rounds)[k].calibration.Timed?
      {
        if k >= |r.finds| {
          assert after[|ls| + k] == after[|next| + (k - |r.finds|)];
        } else {
          assert after[|ls| + k] == next[|ls| + k];
        }
      }
    }
  }
}
