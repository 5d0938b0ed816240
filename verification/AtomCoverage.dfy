/**
  Hybrid mode keeps three maps: address coverage, atom coverage, and the atom
  coverage of saved inputs only. A purge replaces the second by the third. The
  checksum filter skips traces whose atoms were seen to lead nowhere.
 */
module AtomCoverage {
  import opened Bytes
  import opened Words
  import opened CoverageMap
  import opened PopCount

  const HALF := 0x1_0000

  // ---------- what the saved traces leave virgin ----------

  /** A map of n bytes with every bit set. */
  function Full(n: nat): seq<byte> { seq(n, _ => 255) }

  function OrByte(a: byte, b: byte): byte {
    assert Pow2(8) == 256;
    OrBound(a, b, 8);
    Or(a, b)
  }

  function OrMaps(a: seq<byte>, b: seq<byte>): seq<byte>
    requires |a| == |b|
  {
    seq(|a|, k requires 0 <= k < |a| => OrByte(a[k], b[k]))
  }

  ghost predicate Sized(traces: seq<Trace>, n: nat) {
    forall t | t in traces :: |t| == n
  }

  /** Every bit that some trace has. */
  ghost function Union(traces: seq<Trace>, n: nat): (u: seq<byte>)
    requires Sized(traces, n)
    ensures |u| == n
  {
    if traces == [] then seq(n, _ => 0)
    else OrMaps(Union(traces[..|traces| - 1], n), traces[|traces| - 1])
  }

  /** No bit of t is missing from u. */
  ghost predicate Contains(u: seq<byte>, t: seq<byte>)
    requires |u| == |t|
  {
    forall k | 0 <= k < |t| :: AndNot(t[k], u[k]) == 0
  }

  lemma {:induction false} AndNotOr(v: nat, a: nat, b: nat)
    ensures AndNot(v, Or(a, b)) == AndNot(AndNot(v, a), b)
  {
    if v > 0 {
      OrDigits(a, b);
      AndNotDigits(v, Or(a, b));
      AndNotDigits(v, a);
      AndNotDigits(AndNot(v, a), b);
      AndNotOr(v / 2, a / 2, b / 2);
      SameDigits(AndNot(v, Or(a, b)), AndNot(AndNot(v, a), b));
    }
  }

  lemma OrDigits(a: nat, b: nat)
    ensures Or(a, b) % 2 == (if a % 2 == 1 || b % 2 == 1 then 1 else 0) && Or(a, b) / 2 == Or(a / 2, b / 2)
  {}

  lemma {:induction false} AndOfRest(t: nat, v: nat, u: nat)
    ensures And(t, AndNot(v, u)) == AndNot(And(t, v), u)
    decreases t
  {
    if t > 0 {
      AndNotDigits(v, u);
      AndDigits(t, AndNot(v, u));
      AndDigits(t, v);
      AndNotDigits(And(t, v), u);
      AndOfRest(t / 2, v / 2, u / 2);
      SameDigits(And(t, AndNot(v, u)), AndNot(And(t, v), u));
    }
  }

  lemma {:induction false} AfterOneMore(v: seq<byte>, traces: seq<Trace>, t: Trace)
    requires SameSize(v, traces) && |t| == |v|
    ensures SameSize(v, traces + [t]) && |After(v, traces)| == |v|
    ensures After(v, traces + [t]) == Cleared(After(v, traces), t)
    decreases |traces|
  {
    if traces == [] {
      assert ([] + [t])[1..] == [];
    } else {
      assert (traces + [t])[1..] == traces[1..] + [t];
      AfterOneMore(Cleared(v, traces[0]), traces[1..], t);
    }
  }

  /** What is left virgin is everything but the union. */
  lemma {:induction false} AllButTheUnion(traces: seq<Trace>, n: nat)
    requires Sized(traces, n)
    ensures SameSize(Full(n), traces) && After(Full(n), traces) == Cleared(Full(n), Union(traces, n))
    decreases |traces|
  {
    if traces != [] {
      var init, t := traces[..|traces| - 1], traces[|traces| - 1];
      assert traces == init + [t];
      AllButTheUnion(init, n);
      AfterOneMore(Full(n), init, t);
      var u := Union(init, n);
      forall k | 0 <= k < n
        ensures Clear(Clear(255, u[k]), t[k]) == Clear(255, OrByte(u[k], t[k]))
      {
        AndNotOr(255, u[k], t[k]);
      }
      assert After(Full(n), traces) == Cleared(Full(n), Union(traces, n));
    }
  }

  /** Against such a map a trace brings nothing new exactly when the union contains it. */
  lemma NothingNewIffContained(traces: seq<Trace>, t: Trace)
    requires Sized(traces, |t|)
    ensures SameSize(Full(|t|), traces)
    ensures |After(Full(|t|), traces)| == |t|
    ensures Verdict(After(Full(|t|), traces), t) == 0 <==> Contains(Union(traces, |t|), t)
  {
    var n := |t|;
    AllButTheUnion(traces, n);
    var u, v := Union(traces, n), After(Full(n), traces);
    forall k | 0 <= k < n
      ensures And(t[k], v[k]) == AndNot(t[k], u[k])
    {
      AndOfRest(t[k], 255, u[k]);
      assert Pow2(8) == 256;
      AndOnes(t[k], 8);
    }
    if HitsPristine(v, t) { PristineIsVirgin(v, t); }
    if Verdict(v, t) == 0 {
      forall k | 0 <= k < n
        ensures AndNot(t[k], u[k]) == 0
      {
        assert And(t[k], v[k]) == 0;
      }
    }
  }

  // ---------- the maps and the filter ----------

  predicate UpperIn(rejected: seq<u32>, h: nat) {
    rejected != [] && (rejected[|rejected| - 1] / HALF == h || UpperIn(rejected[..|rejected| - 1], h))
  }

  predicate LowerIn(rejected: seq<u32>, h: nat) {
    rejected != [] && (rejected[|rejected| - 1] % HALF == h || LowerIn(rejected[..|rejected| - 1], h))
  }

  lemma {:induction false} HalvesIn(rejected: seq<u32>, h: nat)
    ensures UpperIn(rejected, h) <==> exists k :: 0 <= k < |rejected| && rejected[k] / HALF == h
    ensures LowerIn(rejected, h) <==> exists k :: 0 <= k < |rejected| && rejected[k] % HALF == h
  {
    if rejected != [] {
      var init := rejected[..|rejected| - 1];
      HalvesIn(init, h);
      forall k | 0 <= k < |init|
        ensures init[k] == rejected[k]
      {}
    }
  }

  /** The two tables have exactly the halves of the rejected checksums. */
  ghost predicate Tables(up: seq<bool>, down: seq<bool>, rejected: seq<u32>) {
    && |up| == |down| == HALF
    && forall h | 0 <= h < HALF :: up[h] == UpperIn(rejected, h) && down[h] == LowerIn(rejected, h)
  }

  /** The filter stops every rejected checksum, and also any that takes its halves from two of them. */
  lemma FilterMixesHalves(up: seq<bool>, down: seq<bool>, rejected: seq<u32>, c: u32)
    requires Tables(up, down, rejected)
    ensures up[c / HALF] && down[c % HALF] <==>
      exists j, k :: 0 <= j < |rejected| && 0 <= k < |rejected| &&
        rejected[j] / HALF == c / HALF && rejected[k] % HALF == c % HALF
    ensures c in rejected ==> up[c / HALF] && down[c % HALF]
  {
    HalvesIn(rejected, c / HALF);
    HalvesIn(rejected, c % HALF);
  }

  lemma OneMoreRejected(up: seq<bool>, down: seq<bool>, rejected: seq<u32>, c: u32)
    requires Tables(up, down, rejected)
    ensures Tables(up[c / HALF := true], down[c % HALF := true], rejected + [c])
  {
    assert (rejected + [c])[..|rejected|] == rejected;
  }

  /** With nothing saved, everything is virgin. */
  lemma NothingSaved(n: nat)
    ensures Cleared(Full(n), Union([], n)) == Full(n)
  {
    var z: seq<byte> := seq(n, _ => 0);
    NothingToClear(Full(n), z);
  }

  class Hybrid {
    const virginBits: array<byte>
    const virginAtom: array<byte>
    const virginAtomReal: array<byte>
    const checkUp: array<bool>
    const checkDown: array<bool>
    var preVirginBits: nat
    var realExecs: nat
    var preRealExecs: nat
    var filterExecution: nat
    ghost var saved: seq<Trace>    // atom traces of the inputs saved in hybrid mode
    ghost var rejected: seq<u32>   // checksums whose atoms led to no new address

    constructor ()
      ensures Valid() && saved == [] && rejected == []
      ensures virginBits[..] == virginAtom[..] == Full(MAP_SIZE)
    {
      hide Cleared, Union;
      virginBits := new byte[MAP_SIZE](_ => 255);
      virginAtom := new byte[MAP_SIZE](_ => 255);
      virginAtomReal := new byte[MAP_SIZE](_ => 255);
      checkUp := new bool[HALF](_ => false);
      checkDown := new bool[HALF](_ => false);
      preVirginBits, realExecs, preRealExecs, filterExecution := 0, 0, 0, 0;
      saved, rejected := [], [];
      new;
      NothingSaved(MAP_SIZE);
      assert virginAtomReal[..] == Full(MAP_SIZE);
    }

    /** The third map is all ones minus the union of the saved atom traces. */
    ghost predicate Valid()
      reads this, virginBits, virginAtom, virginAtomReal, checkUp, checkDown
    {
      && virginBits != virginAtom && virginBits != virginAtomReal && virginAtom != virginAtomReal
      && checkUp != checkDown
      && virginBits.Length == virginAtom.Length == virginAtomReal.Length == MAP_SIZE
      && checkUp.Length == checkDown.Length == HALF
      && preRealExecs <= realExecs
      && Sized(saved, MAP_SIZE)
      && virginAtomReal[..] == Cleared(Full(MAP_SIZE), Union(saved, MAP_SIZE))
      && Tables(checkUp[..], checkDown[..], rejected)
    }

    /** From time to time the atom coverage of unsaved inputs is forgotten. */
    method Purge(interval: nat) returns (purged: bool)
      requires Valid()
      modifies `preVirginBits, `preRealExecs, virginAtom
      ensures Valid()
      ensures virginAtom[..] == if purged then Cleared(Full(MAP_SIZE), Union(saved, MAP_SIZE)) else old(virginAtom[..])
      ensures purged <==>
        realExecs - old(preRealExecs) >= interval
        && Worthwhile(virginBits[..], virginAtomReal[..], old(virginAtom[..]), old(preVirginBits))
      ensures preRealExecs == if realExecs - old(preRealExecs) >= interval then realExecs else old(preRealExecs)
      ensures preVirginBits ==
        if realExecs - old(preRealExecs) >= interval then Hits(virginBits[..]) else old(preVirginBits)
    {
      hide Cleared, Union, Pristine, Tables;
      purged := false;
      if realExecs - preRealExecs >= interval {
        var bits := CountNon255Bytes(virginBits[..]);
        var realAtoms := CountNon255Bytes(virginAtomReal[..]);
        var atoms := CountNon255Bytes(virginAtom[..]);
        if (bits as real) <= 1.01 * (preVirginBits as real) || realAtoms * 2 < atoms {
          Memcpy(virginAtom, 0, virginAtomReal, 0, MAP_SIZE);
          assert virginAtom[..] == virginAtomReal[..];
          purged := true;
        }
        preVirginBits := bits;
        preRealExecs := realExecs;
      }
    }

    /** A new queue entry starts with an empty filter. */
    method ClearFilter()
      requires Valid()
      modifies `rejected, checkUp, checkDown
      ensures Valid() && rejected == []
    {
      hide Cleared, Union;
      forall h | 0 <= h < HALF { checkUp[h] := false; }
      forall h | 0 <= h < HALF { checkDown[h] := false; }
      rejected := [];
    }

    /** Remembers a checksum whose atoms were new but led to no new address. */
    method RejectChecksum(cksum: u32)
      requires Valid()
      modifies `rejected, checkUp, checkDown
      ensures Valid() && rejected == old(rejected) + [cksum]
    {
      hide Cleared, Union, Tables;
      OneMoreRejected(checkUp[..], checkDown[..], rejected, cksum);
      ghost var up, down := checkUp[..][cksum / HALF := true], checkDown[..][cksum % HALF := true];
      checkUp[cksum / HALF] := true;
      checkDown[cksum % HALF] := true;
      assert checkUp[..] == up && checkDown[..] == down;
      rejected := rejected + [cksum];
    }

    /** Adds the atoms of a saved input to the third map. */
    method RecordSaved(trace: array<byte>)
      requires Valid() && trace.Length == MAP_SIZE && trace != virginAtomReal
      modifies `saved, virginAtomReal
      ensures Valid() && saved == old(saved) + [trace[..]]
    {
      hide Cleared, Tables, Verdict;
      ghost var before := saved;
      AllButTheUnion(before, MAP_SIZE);
      AfterOneMore(Full(MAP_SIZE), before, trace[..]);
      var hnb := HasNewBits(virginAtomReal, trace, 8);
      saved := saved + [trace[..]];
      AllButTheUnion(saved, MAP_SIZE);
    }

    predicate Filtered(cksum: u32)
      requires checkUp.Length == checkDown.Length == HALF
      reads checkUp, checkDown
    {
      checkUp[cksum / HALF] && checkDown[cksum % HALF]
    }

    /** A purge is due with the next counted execution, and worthwhile. */
    ghost predicate PurgesNext(interval: nat, atoms: seq<byte>)
      reads `realExecs, `preRealExecs, `preVirginBits, virginBits, virginAtomReal
    {
      realExecs + 1 - preRealExecs >= interval
      && Worthwhile(virginBits[..], virginAtomReal[..], atoms, preVirginBits)
    }

    /** The end of a run: it counts as an execution, and a purge may come with it. */
    method CountRun(interval: nat) returns (purged: bool)
      requires Valid()
      modifies `realExecs, `preVirginBits, `preRealExecs, virginAtom
      ensures Valid() && realExecs == old(realExecs) + 1
      ensures purged <==> old(PurgesNext(interval, virginAtom[..]))
      ensures virginAtom[..] == if purged then Cleared(Full(MAP_SIZE), Union(saved, MAP_SIZE)) else old(virginAtom[..])
      ensures preRealExecs == if realExecs - old(preRealExecs) >= interval then realExecs else old(preRealExecs)
      ensures preVirginBits ==
        if realExecs - old(preRealExecs) >= interval then Hits(virginBits[..]) else old(preVirginBits)
    {
      hide Cleared, Union, Tables, Worthwhile;
      realExecs := realExecs + 1;
      purged := Purge(interval);
    }

    /** The second run; traceBits gets its addresses. */
    method InnerRun(traceBits: array<byte>, inner: seq<byte>, interval: nat) returns (purged: bool)
      requires Valid() && traceBits.Length == |inner| == MAP_SIZE
      requires traceBits !in {virginBits, virginAtom, virginAtomReal}
      modifies `realExecs, `preVirginBits, `preRealExecs, virginAtom, traceBits
      ensures Valid() && realExecs == old(realExecs) + 1 && traceBits[..] == inner
      ensures purged <==> old(PurgesNext(interval, virginAtom[..]))
      ensures virginAtom[..] == if purged then Cleared(Full(MAP_SIZE), Union(saved, MAP_SIZE)) else old(virginAtom[..])
    {
      hide Cleared, Union, Tables, Worthwhile;
      purged := CountRun(interval);
      Load(traceBits, inner);
    }

    /** New addresses save the input; without any its checksum is remembered. */
    method Decide(traceBits: array<byte>, atoms: array<byte>, cksum: u32) returns (kept: bool)
      requires Valid() && traceBits.Length == atoms.Length == MAP_SIZE
      requires traceBits !in {virginBits, virginAtom, virginAtomReal}
        && atoms !in {virginBits, virginAtom, virginAtomReal}
      modifies `saved, `rejected, virginBits, virginAtomReal, checkUp, checkDown
      ensures Valid()
      ensures kept == (Verdict(old(virginBits[..]), traceBits[..]) > 0)
      ensures virginBits[..] == Cleared(old(virginBits[..]), traceBits[..])
      ensures saved == if kept then old(saved) + [atoms[..]] else old(saved)
      ensures rejected == if !kept && cksum != 0 then old(rejected) + [cksum] else old(rejected)
    {
      hide Cleared, Union, Verdict, Tables;
      var hnb := HasNewBits(virginBits, traceBits, 8);
      kept := hnb > 0;
      if kept {
        RecordSaved(atoms);
      } else if cksum != 0 {
        RejectChecksum(cksum);
      }
    }

    /**
      Hybrid mode after a run: traceBits has the atoms. New atoms are worth a
      second run with address coverage, which gives `inner`. Only new addresses
      save the input.
     */
    method SaveIfInteresting(traceBits: array<byte>, inner: seq<byte>, cksum: u32, interval: nat)
      returns (kept: bool, purged: bool)
      requires Valid() && traceBits.Length == |inner| == MAP_SIZE
      requires traceBits !in {virginBits, virginAtom, virginAtomReal}
      modifies this, virginBits, virginAtom, virginAtomReal, checkUp, checkDown, traceBits
      ensures Valid()
      ensures var filtered := old(Filtered(cksum));
              var newAtoms := !filtered && Verdict(old(virginAtom[..]), old(traceBits[..])) > 0;
        && kept == (newAtoms && Verdict(old(virginBits[..]), inner) > 0)
        && saved == (if kept then old(saved) + [old(traceBits[..])] else old(saved))
        && rejected == (if newAtoms && !kept && cksum != 0 then old(rejected) + [cksum] else old(rejected))
        && virginBits[..] == (if newAtoms then Cleared(old(virginBits[..]), inner) else old(virginBits[..]))
        && filterExecution == old(filterExecution) + (if filtered then 1 else 0)
        && realExecs == old(realExecs) + (if newAtoms then 1 else 0)
        && (purged <==>
              newAtoms && old(PurgesNext(interval, Cleared(virginAtom[..], traceBits[..]))))
        && virginAtom[..] == (if purged then Cleared(Full(MAP_SIZE), Union(old(saved), MAP_SIZE))
                              else if filtered then old(virginAtom[..])
                              else Cleared(old(virginAtom[..]), old(traceBits[..])))
    {
      hide Cleared, Union, Verdict, Tables, Worthwhile;
      kept, purged := false, false;
      if Filtered(cksum) {
        filterExecution := filterExecution + 1;
        return;
      }
      var hnb := HasNewBits(virginAtom, traceBits, 8);
      if hnb == 0 { return; }
      var tmp := Copy(traceBits);
      purged := InnerRun(traceBits, inner, interval);
      kept := Decide(traceBits, tmp, cksum);
    }
  }

  method Load(a: array<byte>, s: seq<byte>)
    requires a.Length == |s|
    modifies a
    ensures a[..] == s
  {
    forall k | 0 <= k < |s| { a[k] := s[k]; }
  }

  method Copy(a: array<byte>) returns (b: array<byte>)
    ensures fresh(b) && b[..] == a[..]
  {
    b := new byte[a.Length];
    Memcpy(b, 0, a, 0, a.Length);
  }

  /** What the filter stops, right up to its mixing of halves. */
  lemma FilteredExact(h: Hybrid, c: u32)
    requires h.Valid()
    ensures h.Filtered(c) <==>
      exists j, k :: 0 <= j < |h.rejected| && 0 <= k < |h.rejected| &&
        h.rejected[j] / HALF == c / HALF && h.rejected[k] % HALF == c % HALF
    ensures c in h.rejected ==> h.Filtered(c)
  {
    FilterMixesHalves(h.checkUp[..], h.checkDown[..], h.rejected, c);
  }

  /** How many bytes of a map are no longer untouched. */
  ghost function Hits(m: seq<byte>): int { |m| - Pristine(m) }

  /** Address coverage grew by a hundredth at most, or less than half of the atom coverage is of saved inputs. */
  ghost predicate Worthwhile(bits: seq<byte>, realAtoms: seq<byte>, atoms: seq<byte>, before: nat) {
    (Hits(bits) as real) <= 1.01 * (before as real) || Hits(realAtoms) * 2 < Hits(atoms)
  }

  /** The same in whole numbers. */
  lemma WorthwhileExact(bits: seq<byte>, realAtoms: seq<byte>, atoms: seq<byte>, before: nat)
    ensures Worthwhile(bits, realAtoms, atoms, before) <==>
            100 * Hits(bits) <= 101 * before || 2 * Hits(realAtoms) < Hits(atoms)
  {}

  /** The bytes of a map that some trace cleared. */
  function Touched(m: seq<byte>): set<nat> {
    set i: nat | i < |m| && m[i] != 255
  }

  /** Exactly those bytes count. */
  lemma {:induction false} HitsCounted(m: seq<byte>)
    ensures Hits(m) == |Touched(m)|
  {
    if m != [] {
      var n := |m| - 1;
      HitsCounted(m[..n]);
      PristineAppendOne(m[..n], m[n]);
      assert m == m[..n] + [m[n]];
      assert Touched(m) == if m[n] == 255 then Touched(m[..n]) else Touched(m[..n]) + {n};
    }
  }

  /** Right after a purge, a trace has new atoms exactly when no set of saved inputs has them all. */
  lemma AfterPurge(h: Hybrid, trace: Trace)
    requires h.Valid() && |trace| == MAP_SIZE
    requires h.virginAtom[..] == Cleared(Full(MAP_SIZE), Union(h.saved, MAP_SIZE))
    ensures Verdict(h.virginAtom[..], trace) == 0 <==> Contains(Union(h.saved, MAP_SIZE), trace)
  {
    AllButTheUnion(h.saved, MAP_SIZE);
    NothingNewIffContained(h.saved, trace);
  }
}
