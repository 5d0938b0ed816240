/**
  The loop of a persistent target: the child stops itself after each run and is
  resumed for the next, until its count is used up.
 */
module Persistent {
  import opened Bytes
  import opened Words

  /** How often the body of the loop is run. A count of 0 wraps around. */
  function Runs(isPersistent: bool, maxCnt: u32): nat {
    if !isPersistent then 1 else if maxCnt == 0 then M32 else maxCnt
  }

  class Child {
    const isPersistent: bool
    var firstPass: bool
    var cycleCnt: u32
    var stops: nat     // how often the child has stopped itself
    var cleared: bool  // the coverage map was erased before the first run
    var tracing: bool  // coverage goes to the shared map

    constructor (isPersistent: bool)
      ensures this.isPersistent == isPersistent && firstPass && tracing && !cleared && stops == 0
    {
      this.isPersistent := isPersistent;
      firstPass, cycleCnt, stops, cleared, tracing := true, 0, 0, false, true;
    }

    /** __AFL_LOOP: whether to run the body once more. */
    method Loop(maxCnt: u32) returns (again: bool)
      modifies this
      ensures !firstPass
      ensures old(firstPass) ==> again && cycleCnt == maxCnt && stops == old(stops) && tracing == old(tracing)
      ensures old(firstPass) ==> cleared == (isPersistent || old(cleared))
      ensures !old(firstPass) ==> cleared == old(cleared) && (again <==> isPersistent && old(cycleCnt) != 1)
      ensures !old(firstPass) && isPersistent ==>
        cycleCnt == (old(cycleCnt) - 1) % M32 && tracing == (again && old(tracing))
      ensures !old(firstPass) ==> stops == old(stops) + (if again then 1 else 0)
      ensures !old(firstPass) && !isPersistent ==> tracing == old(tracing)
    {
      if firstPass {
        if isPersistent { cleared := true; }
        cycleCnt := maxCnt;
        firstPass := false;
        return true;
      }
      if isPersistent {
        cycleCnt := (cycleCnt - 1) % M32;
        if cycleCnt != 0 {
          stops := stops + 1;
          return true;
        }
        tracing := false;
      }
      again := false;
    }

    /** The target's own loop: as many runs as asked for, a stop between two runs, and no tracing after the last. */
    method Drive(maxCnt: u32) returns (runs: nat)
      requires firstPass && tracing
      modifies this
      ensures runs == Runs(isPersistent, maxCnt)
      ensures stops == old(stops) + runs - 1
      ensures tracing == !isPersistent
      ensures isPersistent ==> cleared
    {
      var again := Loop(maxCnt);
      runs := 0;
      while again
        invariant !firstPass && (isPersistent ==> cleared)
        invariant again ==> tracing && stops == old(stops) + runs
        invariant again && isPersistent ==> runs + Runs(true, cycleCnt) == Runs(true, maxCnt)
        invariant again && !isPersistent ==> runs == 0
        invariant !again ==>
          runs == Runs(isPersistent, maxCnt) && stops == old(stops) + runs - 1 && tracing == !isPersistent
        decreases again, if again then Runs(true, cycleCnt) else 0
      {
        runs := runs + 1;
        again := Loop(maxCnt);
      }
    }
  }
}
