/**
  Trimming a test case: blocks of shrinking sizes are left out, for good when
  the checksum of the trace stays the same. The answer to a run is an arbitrary
  function of how many runs came before it and of the bytes that are run.
 */
module Trim {
  import opened Bytes
  import opened Words
  import opened Subsequences

  const TRIM_MIN_BYTES := 4
  const TRIM_END_STEPS := 1024

  /** Same trace, another trace (or an overflow), or a reason to give up. */
  datatype Answer = Same | Other | Stop

  type Oracle = (nat, seq<byte>) -> Answer

  /** s without the n bytes at p. */
  function Gap(s: seq<byte>, p: nat, n: nat): seq<byte>
    requires p + n <= |s|
  {
    s[..p] + s[p + n..]
  }

  lemma Moved(was: seq<byte>, now: seq<byte>, len: nat, pos: nat, avail: nat)
    requires |now| == |was| && len <= |was| && pos + avail <= len
    requires forall i | 0 <= i < |was| :: now[i] == was[if pos <= i < len - avail then i + avail else i]
    ensures now[..len - avail] == Gap(was[..len], pos, avail)
  {
    var s, t := now[..len - avail], Gap(was[..len], pos, avail);
    forall k | 0 <= k < |s|
      ensures s[k] == t[k]
    {
      assert s[k] == now[k];
    }
  }

  lemma GapSteps(s: seq<byte>, p: nat, n: nat)
    requires p + n <= |s|
    ensures n == 0 ==> Gap(s, p, n) == s
    ensures n > 0 && p == 0 ==> Gap(s, p, n) == Gap(s[1..], 0, n - 1)
    ensures n > 0 && p > 0 ==> Gap(s, p, n) == [s[0]] + Gap(s[1..], p - 1, n)
  {}

  lemma {:induction false} GapIsSubsequence(s: seq<byte>, p: nat, n: nat)
    requires p + n <= |s|
    ensures Subsequence(Gap(s, p, n), s)
    decreases |s|
  {
    hide Gap;
    GapSteps(s, p, n);
    if n == 0 {
      SubsequenceSelf(s);
    } else if p == 0 {
      GapIsSubsequence(s[1..], 0, n - 1);
    } else {
      GapIsSubsequence(s[1..], p - 1, n);
      Keep(s[0], Gap(s[1..], p - 1, n), s[1..]);
      assert s == [s[0]] + s[1..];
    }
  }

  /** The last run with the same trace, or the original when there was none. */
  ghost function LastSame(o: Oracle, original: seq<byte>, runs: seq<seq<byte>>): seq<byte> {
    if runs == [] then original
    else
      var n := |runs| - 1;
      if o(n, runs[n]) == Same then runs[n] else LastSame(o, original, runs[..n])
  }

  ghost predicate AnySame(o: Oracle, runs: seq<seq<byte>>) {
    exists k :: 0 <= k < |runs| && o(k, runs[k]) == Same
  }

  lemma {:induction false} LastSameIsSame(o: Oracle, original: seq<byte>, runs: seq<seq<byte>>)
    ensures AnySame(o, runs) ==> exists k :: 0 <= k < |runs| && o(k, LastSame(o, original, runs)) == Same
    ensures !AnySame(o, runs) ==> LastSame(o, original, runs) == original
  {
    if runs != [] {
      var n := |runs| - 1;
      LastSameIsSame(o, original, runs[..n]);
      if o(n, runs[n]) != Same && AnySame(o, runs) {
        var k :| 0 <= k < |runs| && o(k, runs[k]) == Same;
        assert runs[..n][k] == runs[k];
        assert AnySame(o, runs[..n]);
        var j :| 0 <= j < n && o(j, LastSame(o, original, runs[..n])) == Same;
        assert o(j, LastSame(o, original, runs)) == Same;
      } else if o(n, runs[n]) == Same {
        assert o(n, LastSame(o, original, runs)) == Same;
      }
    }
  }

  ghost predicate AnyStop(o: Oracle, runs: seq<seq<byte>>) {
    exists k :: 0 <= k < |runs| && o(k, runs[k]) == Stop
  }

  lemma OneMoreRun(o: Oracle, original: seq<byte>, runs: seq<seq<byte>>, out: seq<byte>)
    ensures var more := runs + [out];
            var answer := o(|runs|, out);
            && LastSame(o, original, more) == (if answer == Same then out else LastSame(o, original, runs))
            && (AnySame(o, more) <==> answer == Same || AnySame(o, runs))
            && (AnyStop(o, more) <==> answer == Stop || AnyStop(o, runs))
  {
    hide AnySame, AnyStop;
    var more := runs + [out];
    assert more[..|more| - 1] == runs;
    OneMoreSame(o, runs, out);
    OneMoreStop(o, runs, out);
  }

  lemma OneMoreSame(o: Oracle, runs: seq<seq<byte>>, out: seq<byte>)
    ensures AnySame(o, runs + [out]) <==> o(|runs|, out) == Same || AnySame(o, runs)
  {
    var more := runs + [out];
    assert more[|runs|] == out && forall k | 0 <= k < |runs| :: more[k] == runs[k];
  }

  lemma OneMoreStop(o: Oracle, runs: seq<seq<byte>>, out: seq<byte>)
    ensures AnyStop(o, runs + [out]) <==> o(|runs|, out) == Stop || AnyStop(o, runs)
  {
    var more := runs + [out];
    assert more[|runs|] == out && forall k | 0 <= k < |runs| :: more[k] == runs[k];
  }

  // ---------- the stage as a function ----------

  /** What is left, how many runs there have been, and whether the last of them was a reason to give up. */
  datatype Left = Left(data: seq<byte>, execs: nat, stopped: bool)

  /** One pass from p on, in blocks of d bytes. */
  function Passed(o: Oracle, n: nat, s: seq<byte>, p: nat, d: nat): (r: Left)
    requires d > 0
    ensures |r.data| <= |s|
    decreases if p < |s| then |s| - p else 0
  {
    if p >= |s| then Left(s, n, false)
    else
      var gap := Gap(s, p, Min(d, |s| - p));
      match o(n, gap)
      case Same => Passed(o, n + 1, gap, p, d)
      case Other => Passed(o, n + 1, s, p + d, d)
      case Stop => Left(s, n + 1, true)
  }

  /** Passes with blocks of d, d / 2, ... bytes. */
  function Trimmed(o: Oracle, n: nat, s: seq<byte>, d: nat): Left
    decreases d
  {
    if d < Max(LeastPow2(|s|) / TRIM_END_STEPS, TRIM_MIN_BYTES) then Left(s, n, false)
    else
      var r := Passed(o, n, s, d, d);
      if r.stopped then r else Trimmed(o, r.execs, r.data, d / 2)
  }

  /** The whole stage; a case of fewer than five bytes is left alone. */
  function Stage(o: Oracle, s: seq<byte>): Left {
    if |s| < 5 then Left(s, 0, false)
    else Trimmed(o, 0, s, Max(LeastPow2(|s|) / TRIM_START_STEPS, TRIM_MIN_BYTES))
  }

  lemma PassedStep(o: Oracle, n: nat, s: seq<byte>, p: nat, d: nat)
    requires d > 0
    ensures p >= |s| ==> Passed(o, n, s, p, d) == Left(s, n, false)
    ensures p < |s| ==>
      var gap := Gap(s, p, Min(d, |s| - p));
      Passed(o, n, s, p, d) == match o(n, gap)
                               case Same => Passed(o, n + 1, gap, p, d)
                               case Other => Passed(o, n + 1, s, p + d, d)
                               case Stop => Left(s, n + 1, true)
  {}

  lemma TrimmedStep(o: Oracle, n: nat, s: seq<byte>, d: nat)
    ensures Trimmed(o, n, s, d) ==
      if d < Max(LeastPow2(|s|) / TRIM_END_STEPS, TRIM_MIN_BYTES) then Left(s, n, false)
      else
        var r := Passed(o, n, s, d, d);
        if r.stopped then r else Trimmed(o, r.execs, r.data, d / 2)
  {}

  // ---------- which blocks are tried ----------

  /** The answer does not depend on the runs before. */
  ghost predicate Consistent(o: Oracle) {
    forall n, m, s: seq<byte> :: o(n, s) == o(m, s)
  }

  function Halved(d: nat, k: nat): nat {
    if k == 0 then d else Halved(d / 2, k - 1)
  }

  lemma {:induction false} HalvedLess(d: nat, k: nat)
    ensures Halved(d, k) <= d
  {
    if k > 0 { HalvedLess(d / 2, k - 1); }
  }

  lemma {:induction false} HalvedMore(d: nat, k: nat)
    ensures Halved(d, k + 1) == Halved(d, k) / 2
  {
    if k > 0 { HalvedMore(d / 2, k - 1); }
  }

  lemma {:induction false} HalvedOrder(d: nat, k: nat, i: nat)
    requires k <= i
    ensures Halved(d, i) <= Halved(d, k)
    decreases i
  {
    if k < i {
      HalvedOrder(d, k, i - 1);
      HalvedMore(d, i - 1);
    }
  }

  /** No block of d bytes can go, from position p on. */
  ghost predicate Refuses(o: Oracle, s: seq<byte>, p: nat, d: nat)
    requires d > 0
  {
    forall q: nat | p <= q < |s| && q % d == 0 :: o(0, Gap(s, q, Min(d, |s| - q))) == Other
  }

  lemma NextBlock(q: nat, p: nat, d: nat)
    requires d > 0 && p % d == 0 && q % d == 0 && p < q
    ensures p + d <= q
  {
    if q < p + d {
      DivUnique(q, d, p / d, q - p);
      assert false;
    }
  }

  lemma NextAligned(p: nat, d: nat)
    requires d > 0 && p % d == 0
    ensures (p + d) % d == 0
  {
    DivUnique(p + d, d, p / d + 1, 0);
  }

  /** A pass changes nothing, and is not given up, exactly when no aligned block can go. */
  lemma {:induction false} PassIdle(o: Oracle, n: nat, s: seq<byte>, p: nat, d: nat)
    requires Consistent(o) && d > 0 && p % d == 0
    ensures Passed(o, n, s, p, d).data == s && !Passed(o, n, s, p, d).stopped <==> Refuses(o, s, p, d)
    decreases if p < |s| then |s| - p else 0
  {
    hide Passed;
    PassedStep(o, n, s, p, d);
    if p < |s| {
      var gap := Gap(s, p, Min(d, |s| - p));
      assert o(n, gap) == o(0, gap);
      if o(n, gap) == Other {
        NextAligned(p, d);
        PassIdle(o, n + 1, s, p + d, d);
        forall q: nat | p < q < |s| && q % d == 0 ensures p + d <= q { NextBlock(q, p, d); }
      } else {
        assert |gap| < |s|;
      }
    }
  }

  /** The block sizes, from d on, that are tried on s: those that are not too small for it. */
  ghost predicate Fits(s: seq<byte>, d: nat) {
    d >= Max(LeastPow2(|s|) / 1024, 4)
  }

  ghost predicate AllRefused(o: Oracle, s: seq<byte>, d: nat) {
    forall k: nat | Fits(s, Halved(d, k)) :: Refuses(o, s, Halved(d, k), Halved(d, k))
  }

  lemma AllRefusedStep(o: Oracle, s: seq<byte>, d: nat)
    ensures !Fits(s, d) ==> AllRefused(o, s, d)
    ensures Fits(s, d) ==> (AllRefused(o, s, d) <==> Refuses(o, s, d, d) && AllRefused(o, s, d / 2))
  {
    hide Refuses;
    if !Fits(s, d) {
      forall k: nat ensures !Fits(s, Halved(d, k)) { HalvedLess(d, k); }
    } else {
      assert Halved(d, 0) == d;
      assert forall k: nat :: Halved(d / 2, k) == Halved(d, k + 1);
      assert forall k: nat | k > 0 :: Halved(d, k) == Halved(d / 2, k - 1);
    }
  }

  lemma {:induction false} TrimmedShorter(o: Oracle, n: nat, s: seq<byte>, d: nat)
    ensures |Trimmed(o, n, s, d).data| <= |s|
    decreases d
  {
    hide Passed;
    if d >= Max(LeastPow2(|s|) / TRIM_END_STEPS, TRIM_MIN_BYTES) {
      var r := Passed(o, n, s, d, d);
      if !r.stopped { TrimmedShorter(o, r.execs, r.data, d / 2); }
    }
  }

  /** And so for all sizes, halving from d on. */
  lemma {:induction false} TrimIdle(o: Oracle, n: nat, s: seq<byte>, d: nat)
    requires Consistent(o)
    ensures Trimmed(o, n, s, d).data == s && !Trimmed(o, n, s, d).stopped <==>
            AllRefused(o, s, d)
    decreases d
  {
    hide Passed, Refuses, AllRefused;
    AllRefusedStep(o, s, d);
    if Fits(s, d) {
      var r := Passed(o, n, s, d, d);
      PassIdle(o, n, s, d, d);
      if !r.stopped {
        TrimmedShorter(o, r.execs, r.data, d / 2);
        if |r.data| == |s| && r.data == s {
          TrimIdle(o, r.execs, s, d / 2);
        } else {
          PassedSame(o, n, s, d, d);
        }
      }
    }
  }

  lemma {:induction false} PassedSame(o: Oracle, n: nat, s: seq<byte>, p: nat, d: nat)
    requires d > 0
    ensures Passed(o, n, s, p, d).data == s || |Passed(o, n, s, p, d).data| < |s|
    decreases if p < |s| then |s| - p else 0
  {
    hide Passed;
    PassedStep(o, n, s, p, d);
    if p < |s| && o(n, Gap(s, p, Min(d, |s| - p))) == Other {
      PassedSame(o, n + 1, s, p + d, d);
    }
  }

  /** The first block size: a sixteenth of the length, rounded up to a power of two. */
  function FirstSize(len: nat): nat {
    Max(LeastPow2(len) / 16, 4)
  }

  /** With a consistent target, the stage leaves a case alone exactly when no block of any tried size could go. */
  lemma StageIdle(o: Oracle, s: seq<byte>)
    requires Consistent(o) && |s| >= 5
    ensures Stage(o, s).data == s && !Stage(o, s).stopped <==>
            AllRefused(o, s, FirstSize(|s|))
  {
    hide Trimmed, Refuses, Fits, AllRefused;
    var d := FirstSize(|s|);
    assert Stage(o, s) == Trimmed(o, 0, s, d);
    TrimIdle(o, 0, s, d);
    assert (Stage(o, s).data == s && !Stage(o, s).stopped) <==> AllRefused(o, s, d);
  }

  /** Run j leaves out d bytes at offset d of what the runs before it had left: it opens a pass of that size. */
  ghost predicate OpensPass(o: Oracle, original: seq<byte>, runs: seq<seq<byte>>, j: nat, d: nat) {
    && j < |runs|
    && var s := LastSame(o, original, runs[..j]);
       0 < d < |s| && runs[j] == Gap(s, d, Min(d, |s| - d))
  }

  ghost predicate Tried(o: Oracle, original: seq<byte>, runs: seq<seq<byte>>, d: nat) {
    exists j: nat :: OpensPass(o, original, runs, j, d)
  }

  lemma Opened(o: Oracle, original: seq<byte>, before: seq<seq<byte>>, runs: seq<seq<byte>>, s: seq<byte>, d: nat)
    requires before <= runs && |before| < |runs| && s == LastSame(o, original, before)
    requires 0 < d < |s| && runs[|before|] == Gap(s, d, Min(d, |s| - d))
    ensures OpensPass(o, original, runs, |before|, d)
  {
    hide LastSame, Gap;
    assert runs[..|before|] == before;
  }

  lemma OpensKept(o: Oracle, original: seq<byte>, runs: seq<seq<byte>>, more: seq<seq<byte>>, j: nat, d: nat)
    requires OpensPass(o, original, runs, j, d) && runs <= more
    ensures OpensPass(o, original, more, j, d) && Tried(o, original, more, d)
  {
    hide LastSame, Gap;
    assert more[..j] == runs[..j] && more[j] == runs[j];
  }

  lemma TriedMore(o: Oracle, original: seq<byte>, runs: seq<seq<byte>>, more: seq<seq<byte>>, d: nat)
    requires Tried(o, original, runs, d) && runs <= more
    ensures Tried(o, original, more, d)
  {
    hide LastSame, Gap;
    var j: nat :| OpensPass(o, original, runs, j, d);
    OpensKept(o, original, runs, more, j, d);
  }

  /** The sizes before number k have been tried. */
  ghost predicate TriedBefore(o: Oracle, original: seq<byte>, runs: seq<seq<byte>>, d: nat, k: nat) {
    forall i: nat | i < k :: Tried(o, original, runs, Halved(d, i))
  }

  lemma TriedOneMore(o: Oracle, original: seq<byte>, runs: seq<seq<byte>>, more: seq<seq<byte>>, d: nat, k: nat)
    requires TriedBefore(o, original, runs, d, k) && runs <= more && Tried(o, original, more, Halved(d, k))
    ensures TriedBefore(o, original, more, d, k + 1)
  {
    hide Tried;
    forall i: nat | i < k ensures Tried(o, original, more, Halved(d, i)) {
      TriedMore(o, original, runs, more, Halved(d, i));
    }
  }

  /** Once a size is too small for s all later ones are. */
  lemma TriedAllThatFit(o: Oracle, original: seq<byte>, runs: seq<seq<byte>>, d: nat, k: nat, s: seq<byte>)
    requires TriedBefore(o, original, runs, d, k) && !Fits(s, Halved(d, k))
    ensures forall i: nat | Fits(s, Halved(d, i)) :: Tried(o, original, runs, Halved(d, i))
  {
    hide Tried;
    forall i: nat | Fits(s, Halved(d, i)) ensures i < k {
      if i >= k {
        HalvedOrder(d, k, i);
        assert false;
      }
    }
  }

  lemma FirstSizeLess(len: nat)
    requires len >= 5
    ensures 4 <= FirstSize(len) < len
  {}

  ghost predicate NeverStops(o: Oracle) {
    forall n, s: seq<byte> :: o(n, s) != Stop
  }

  /** The first run has the same trace, and then something goes wrong. */
  const SAME_THEN_STOP: Oracle := (n, s) => if n == 0 then Same else Stop

  /** Twelve bytes: after the second run the buffer has eight, and the file still has all of them. */
  lemma GivesUpAfterTrimming()
    ensures var s := seq(12, _ => ZERO);
            Stage(SAME_THEN_STOP, s) == Left(s[..8], 2, true) && s[..8] != s
  {
    hide Passed;
    var s := seq(12, _ => ZERO);
    PassedStep(SAME_THEN_STOP, 0, s, 4, 4);
    assert Gap(s, 4, 4) == s[..8];
    PassedStep(SAME_THEN_STOP, 1, s[..8], 4, 4);
  }

  /** How many blocks of d bytes, the last one possibly shorter, make up n bytes. */
  function Blocks(n: int, d: nat): (count: nat)
    requires d > 0
    decreases n
  {
    if n <= 0 then 0 else 1 + Blocks(n - d, d)
  }

  lemma {:induction false} BlocksQuotient(n: nat, d: nat)
    requires d > 0
    ensures Blocks(n, d) == (n + d - 1) / d
    decreases n
  {
    if n == 0 {
      DivUnique(d - 1, d, 0, d - 1);
    } else if n <= d {
      DivUnique(n + d - 1, d, 1, n - 1);
    } else {
      BlocksQuotient(n - d, d);
      var q, r := (n - 1) / d, (n - 1) % d;
      assert n + d - 1 == q * d + r + d == (q + 1) * d + r;
      DivUnique(n + d - 1, d, q + 1, r);
    }
  }

  class Trimmer {
    const oracle: Oracle
    const original: seq<byte>
    const inBuf: array<byte>
    var len: nat
    var file: seq<byte>
    var needsWrite: bool
    var execs: nat
    ghost var runs: seq<seq<byte>>

    constructor (input: seq<byte>, oracle: Oracle)
      ensures Valid() && Data() == input == original == file && this.oracle == oracle && runs == []
      ensures fresh(inBuf)
    {
      this.oracle, original, file := oracle, input, input;
      inBuf := new byte[|input|](i requires 0 <= i < |input| => input[i]);
      len, execs, needsWrite, runs := |input|, 0, false, [];
      new;
      assert inBuf[..] == input;
      SubsequenceSelf(input);
    }

    function Data(): seq<byte>
      requires len <= inBuf.Length
      reads `len, inBuf
    {
      inBuf[..len]
    }

    /** The buffer is what the last accepted run wrote, a subsequence of the input with the same first four bytes. */
    ghost predicate Valid()
      reads `len, `execs, `runs, `needsWrite, inBuf
    {
      && len <= inBuf.Length
      && execs == |runs|
      && Data() == LastSame(oracle, original, runs)
      && (needsWrite <==> AnySame(oracle, runs))
      && (if needsWrite then len < |original| else len == |original|)
      && Subsequence(Data(), original)
      && Heads()
    }

    ghost predicate Heads()
      requires len <= inBuf.Length
      reads `len, inBuf
    {
      forall k | 0 <= k < TRIM_MIN_BYTES && k < |original| :: k < len && inBuf[k] == original[k]
    }

    /** What the target gets to read: the buffer with a gap. */
    method WriteWithGap(skipAt: nat, skipLen: nat) returns (out: seq<byte>)
      requires len <= inBuf.Length && skipAt + skipLen <= len
      ensures out == Gap(Data(), skipAt, skipLen)
    {
      var tailLen := len - skipAt - skipLen;
      out := [];
      if skipAt > 0 { out := out + inBuf[..skipAt]; }
      if tailLen > 0 { out := out + inBuf[skipAt + skipLen..skipAt + skipLen + tailLen]; }
    }

    method RunTarget(out: seq<byte>) returns (answer: Answer)
      requires execs == |runs|
      modifies `execs, `runs
      ensures execs == old(execs) + 1 == |runs| && runs == old(runs) + [out]
      ensures answer == oracle(old(execs), out)
    {
      answer := oracle(execs, out);
      execs := execs + 1;
      runs := runs + [out];
    }

    /** Makes a gap permanent. */
    method Close(pos: nat, avail: nat)
      requires len <= inBuf.Length && TRIM_MIN_BYTES <= pos && pos + avail <= len && Heads()
      modifies `len, inBuf
      ensures len == old(len) - avail && Heads()
      ensures Data() == Gap(old(Data()), pos, avail)
    {
      hide Gap;
      ghost var was := inBuf[..];
      var moveTail := len - pos - avail;
      Memmove(inBuf, pos, pos + avail, moveTail);
      Moved(was, inBuf[..], len, pos, avail);
      len := len - avail;
      assert was[..old(len)] == old(Data());
      assert inBuf[..][..len] == Data();
    }

    /** One run with a gap; the gap closes when the trace is the same. */
    method TryGap(pos: nat, avail: nat) returns (answer: Answer)
      requires Valid() && TRIM_MIN_BYTES <= pos && avail > 0 && pos + avail <= len
      modifies `len, `needsWrite, `execs, `runs, inBuf
      ensures Valid() && runs == old(runs) + [Gap(old(Data()), pos, avail)]
      ensures answer == oracle(old(execs), Gap(old(Data()), pos, avail))
      ensures AnyStop(oracle, runs) <==> answer == Stop || AnyStop(oracle, old(runs))
      ensures Data() == if answer == Same then Gap(old(Data()), pos, avail) else old(Data())
      ensures len == if answer == Same then old(len) - avail else old(len)
    {
      hide Subsequence, LastSame, AnySame, AnyStop;
      var out := WriteWithGap(pos, avail);
      OneMoreRun(oracle, original, runs, out);
      answer := RunTarget(out);
      if answer == Same {
        GapIsSubsequence(Data(), pos, avail);
        SubsequenceTrans(out, Data(), original);
        Close(pos, avail);
        needsWrite := true;
      }
    }

    /**
      One pass. However the runs turn out, there is one for each block after the
      first, unless one of them is a reason to give up: that is then the last.
     */
    method Pass(removeLen: nat) returns (stopped: bool)
      requires Valid() && removeLen >= TRIM_MIN_BYTES && !AnyStop(oracle, runs)
      modifies `len, `needsWrite, `execs, `runs, inBuf
      ensures Valid()
      ensures Left(Data(), execs, stopped) == Passed(oracle, old(execs), old(Data()), removeLen, removeLen)
      ensures stopped <==> AnyStop(oracle, runs)
      ensures stopped ==> runs != [] && oracle(execs - 1, runs[execs - 1]) == Stop
      ensures !stopped ==> execs == old(execs) + Blocks(old(len) - removeLen, removeLen)
      ensures old(runs) <= runs && (removeLen <= old(len) ==> removeLen <= len)
      ensures removeLen < old(len) ==> OpensPass(oracle, original, runs, |old(runs)|, removeLen)
    {
      hide Passed, AnyStop, AnySame, LastSame, Subsequence, Gap, OpensPass;
      ghost var before, data := runs, Data();
      var removePos := removeLen;
      ghost var goal := Passed(oracle, execs, Data(), removePos, removeLen);
      while removePos < len
        invariant Valid() && removePos >= removeLen && !AnyStop(oracle, runs)
        invariant Passed(oracle, execs, Data(), removePos, removeLen) == goal
        invariant execs + Blocks(len - removePos, removeLen) == old(execs) + Blocks(old(len) - removeLen, removeLen)
        invariant old(runs) <= runs && (removeLen <= old(len) ==> removeLen <= len)
        invariant runs == before ==> removePos == removeLen && Data() == data
        invariant runs != before ==> removeLen < |data| && |before| < |runs|
        invariant runs != before ==> runs[|before|] == Gap(data, removeLen, Min(removeLen, |data| - removeLen))
        decreases len - removePos
      {
        var trimAvail := Min(removeLen, len - removePos);
        PassedStep(oracle, execs, Data(), removePos, removeLen);
        var answer := TryGap(removePos, trimAvail);
        if answer == Stop {
          Opened(oracle, original, before, runs, data, removeLen);
          return true;
        }
        if answer != Same { removePos := removePos + removeLen; }
      }
      PassedStep(oracle, execs, Data(), removePos, removeLen);
      if removeLen < |data| { Opened(oracle, original, before, runs, data, removeLen); }
      stopped := false;
    }

    /** The first k sizes have been tried, and the first run was with the first of them. */
    ghost predicate Under(first: nat, k: nat)
      reads `len, `runs
    {
      && TriedBefore(oracle, original, runs, first, k)
      && (if k == 0 then runs == [] && Halved(first, k) < len
          else OpensPass(oracle, original, runs, 0, first) && Halved(first, k) <= len / 2)
    }

    /** The pass with size number k. */
    method PassNumber(removeLen: nat, ghost first: nat, ghost k: nat) returns (stopped: bool)
      requires Valid() && removeLen >= TRIM_MIN_BYTES && !AnyStop(oracle, runs)
      requires Under(first, k) && removeLen == Halved(first, k)
      modifies `len, `needsWrite, `execs, `runs, inBuf
      ensures Valid() && len <= inBuf.Length && Under(first, k + 1)
      ensures Left(Data(), execs, stopped) == Passed(oracle, old(execs), old(Data()), removeLen, removeLen)
      ensures stopped <==> AnyStop(oracle, runs)
    {
      hide Passed, AnyStop, OpensPass, Tried, Subsequence, LastSame, AnySame;
      ghost var before := runs;
      stopped := Pass(removeLen);
      OpensKept(oracle, original, runs, runs, |before|, removeLen);
      if k > 0 { OpensKept(oracle, original, before, runs, 0, first); }
      TriedOneMore(oracle, original, before, runs, first, k);
      HalvedMore(first, k);
    }

    /** Block sizes halve from a sixteenth to a thousandth of the length, rounded up to a power of two. */
    method AllPasses() returns (stopped: bool)
      requires Valid() && runs == [] && len == |original| >= 5
      modifies `len, `needsWrite, `execs, `runs, inBuf
      ensures Valid() && (stopped <==> AnyStop(oracle, runs))
      ensures Left(Data(), execs, stopped) == Stage(oracle, original)
      ensures OpensPass(oracle, original, runs, 0, FirstSize(|original|))
      ensures !stopped ==> forall k: nat | Fits(Data(), Halved(FirstSize(|original|), k)) ::
        Tried(oracle, original, runs, Halved(FirstSize(|original|), k))
    {
      hide Valid, AnyStop, LeastPow2, Trimmed, Passed, OpensPass, Tried, Under;
      Unchanged();
      var lenP2 := NextP2(len);
      var removeLen: nat := Max(lenP2 / TRIM_START_STEPS, TRIM_MIN_BYTES);
      ghost var first, k := removeLen, 0;
      Begins(first);
      while removeLen >= Max(lenP2 / TRIM_END_STEPS, TRIM_MIN_BYTES)
        invariant Valid() && !AnyStop(oracle, runs) && len <= inBuf.Length && lenP2 == LeastPow2(len)
        invariant Trimmed(oracle, execs, Data(), removeLen) == Stage(oracle, original)
        invariant removeLen == Halved(first, k) && Under(first, k)
        decreases removeLen
      {
        TrimmedStep(oracle, execs, Data(), removeLen);
        stopped := PassNumber(removeLen, first, k);
        FirstRun(first, k + 1);
        if stopped { return; }
        HalvedMore(first, k);
        k := k + 1;
        lenP2 := NextP2(len);
        removeLen := removeLen / 2;
      }
      TrimmedStep(oracle, execs, Data(), removeLen);
      AllThatFit(first, k);
      if k == 0 { NotTooSmall(first); }
      FirstRun(first, k);
      stopped := false;
    }

    lemma Begins(first: nat)
      requires Valid() && runs == [] && len == |original| >= 5 && first == FirstSize(len)
      ensures Under(first, 0) && Halved(first, 0) == first
    {
      FirstSizeLess(len);
    }

    lemma NotTooSmall(first: nat)
      requires Valid() && Under(first, 0) && first == FirstSize(|original|) && len <= inBuf.Length
      ensures Fits(Data(), Halved(first, 0))
    {
      FirstRun(first, 0);
      Unchanged();
    }

    lemma Unchanged()
      requires Valid() && runs == []
      ensures len <= inBuf.Length && Data() == original && execs == 0 && !AnyStop(oracle, runs)
    {}

    /**
      The whole stage. The file is rewritten at the end, unless a run was a
      reason to give up; so file and buffer agree unless there was such a run
      after the first bytes had been trimmed. It starts with blocks of a
      sixteenth of the length, and every size from there, halving, is tried as
      long as it is not too small for what is left.
     */
    method TrimCase() returns (stopped: bool)
      requires Valid() && runs == [] && file == original
      modifies this, inBuf
      ensures Valid()
      ensures Left(Data(), execs, stopped) == Stage(oracle, original)
      ensures stopped <==> AnyStop(oracle, runs)
      ensures file == if stopped then original else Data()
      ensures file == Data() <==> !(AnyStop(oracle, runs) && AnySame(oracle, runs))
      ensures NeverStops(oracle) ==> file == Data()
      ensures |original| < 5 ==> runs == []
      ensures |original| >= 5 ==> OpensPass(oracle, original, runs, 0, FirstSize(|original|))
      ensures |original| >= 5 && !stopped ==>
        forall k: nat | Fits(Data(), Halved(FirstSize(|original|), k)) ::
          Tried(oracle, original, runs, Halved(FirstSize(|original|), k))
      ensures |original| >= 5 && Consistent(oracle) ==>
        (Data() == original && !stopped <==> AllRefused(oracle, original, FirstSize(|original|)))
    {
      hide Subsequence, LastSame, AnySame, AnyStop, Trimmed, OpensPass, Tried, Fits, FirstSize;
      hide Consistent, AllRefused;
      NothingYet();
      if len < 5 { return false; }
      if Consistent(oracle) { StageIdle(oracle, original); }
      stopped := AllPasses();
      if !needsWrite { LastSameIsSame(oracle, original, runs); }
      if stopped {
        StoppedByRun();
        assert needsWrite ==> |Data()| < |original|;
      } else if needsWrite {
        file := Data();
      }
    }

    lemma FirstRun(first: nat, k: nat)
      requires Under(first, k)
      ensures if k > 0 then OpensPass(oracle, original, runs, 0, first) else runs == [] && Halved(first, k) < len
    {}

    /** When the next size is too small, all others have been tried. */
    lemma AllThatFit(first: nat, k: nat)
      requires len <= inBuf.Length && Under(first, k) && !Fits(Data(), Halved(first, k))
      ensures forall i: nat | Fits(Data(), Halved(first, i)) :: Tried(oracle, original, runs, Halved(first, i))
    {
      TriedAllThatFit(oracle, original, runs, first, k, Data());
    }

    lemma StoppedByRun()
      requires AnyStop(oracle, runs)
      ensures !NeverStops(oracle)
    {}

    lemma NothingYet()
      requires Valid() && runs == []
      ensures Data() == original && !AnyStop(oracle, runs) && !AnySame(oracle, runs)
    {}
  }

  /** With a consistent target, what is left of a trimmed case still gives the same trace. */
  lemma TrimmedStillSame(t: Trimmer)
    requires t.Valid() && Consistent(t.oracle) && t.Data() != t.original
    ensures t.oracle(0, t.Data()) == Same
  {
    LastSameIsSame(t.oracle, t.original, t.runs);
    var k :| 0 <= k < |t.runs| && t.oracle(k, t.Data()) == Same;
    assert t.oracle(k, t.Data()) == t.oracle(0, t.Data());
  }
}
