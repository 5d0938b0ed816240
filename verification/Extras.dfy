/**
  The dictionary stages: every token is written over, and inserted at, every
  offset of the input. The overwriting stage never restores the buffer between
  two tokens at one offset: that the tokens are sorted by size makes up for it.
 */
module Extras {
  import opened Bytes

  const EFF_SCALE := 8

  /** s with t written over it at i. */
  function Over(s: seq<byte>, i: nat, t: seq<byte>): (r: seq<byte>)
    requires i + |t| <= |s|
    ensures |r| == |s|
  {
    s[..i] + t + s[i + |t|..]
  }

  /** Writing a token over one that is not longer leaves nothing of the first. */
  lemma OverAgain(s: seq<byte>, i: nat, a: seq<byte>, b: seq<byte>)
    requires i + |a| <= |s| && i + |b| <= |s|
    requires |a| <= |b|
    ensures Over(Over(s, i, a), i, b) == Over(s, i, b)
  {}

  /** The other way round it depends on what the longer one left behind: that is why the order matters. */
  lemma OverLonger(s: seq<byte>, i: nat, a: seq<byte>, b: seq<byte>)
    requires i + |a| <= |s| && |b| <= |a|
    ensures Over(Over(s, i, a), i, b) == Over(s, i, b) <==> a[|b|..] == s[i + |b|..i + |a|]
  {
    var x, y := Over(Over(s, i, a), i, b), Over(s, i, b);
    forall k | |b| <= k < |a|
      ensures x[i + k] == a[k] && y[i + k] == s[i + k]
    {}
    if x == y {
      forall k | 0 <= k < |a| - |b|
        ensures a[|b|..][k] == s[i + |b|..i + |a|][k]
      {
        assert x[i + |b| + k] == y[i + |b| + k];
      }
    }
    if a[|b|..] == s[i + |b|..i + |a|] {
      forall k | 0 <= k < |s|
        ensures x[k] == y[k]
      {
        if i + |b| <= k < i + |a| { assert a[|b|..][k - i - |b|] == s[i + |b|..i + |a|][k - i - |b|]; }
      }
    }
  }

  ghost predicate SortedBySize(tokens: seq<seq<byte>>) {
    forall j, k | 0 <= j < k < |tokens| :: |tokens[j]| <= |tokens[k]|
  }

  /** Some byte of the span has a mark in the effector map, which keeps one mark for eight bytes. */
  ghost predicate Effective(eff: seq<byte>, i: nat, n: nat)
    requires n > 0 && (i + n - 1) / EFF_SCALE < |eff|
  {
    exists k :: i / EFF_SCALE <= k <= (i + n - 1) / EFF_SCALE && eff[k] == 1
  }

  method AnyEffect(eff: seq<byte>, i: nat, n: nat) returns (found: bool)
    requires n > 0 && (i + n - 1) / EFF_SCALE < |eff|
    ensures found == Effective(eff, i, n)
  {
    var k, last := i / EFF_SCALE, (i + n - 1) / EFF_SCALE;
    while k <= last
      invariant i / EFF_SCALE <= k <= last + 1
      invariant forall m | i / EFF_SCALE <= m < k :: eff[m] != 1
    {
      if eff[k] == 1 { return true; }
      k := k + 1;
    }
    found := false;
  }

  /** What the stage draws at random, and when a run tells it to stop. */
  datatype Plan = Plan(drop: (nat, nat) -> bool, stop: (nat, seq<byte>) -> bool)

  ghost predicate Fits(input: seq<byte>, tokens: seq<seq<byte>>, eff: seq<byte>) {
    && |input| <= EFF_SCALE * |eff|
    && SortedBySize(tokens)
    && forall j | 0 <= j < |tokens| :: |tokens[j]| > 0
  }

  /** The token has room at i, its span has an effect and it was not dropped at random. */
  ghost predicate Eligible(input: seq<byte>, tokens: seq<seq<byte>>, eff: seq<byte>, plan: Plan, i: nat, j: nat)
    requires Fits(input, tokens, eff)
    requires i < |input| && j < |tokens|
  {
    !plan.drop(i, j) && i + |tokens[j]| <= |input| && Effective(eff, i, |tokens[j]|)
  }

  /** Which pairs are due: the token may end where the input ends, and one marked stretch of eight bytes is enough. */
  lemma EligibleExact(input: seq<byte>, tokens: seq<seq<byte>>, eff: seq<byte>, plan: Plan, i: nat, j: nat)
    requires Fits(input, tokens, eff) && i < |input| && j < |tokens|
    ensures Eligible(input, tokens, eff, plan, i, j) <==>
            && !plan.drop(i, j) && i + |tokens[j]| <= |input|
            && exists at :: i <= at < i + |tokens[j]| && eff[at / 8] == 1
  {
    if i + |tokens[j]| <= |input| {
      var last := i + |tokens[j]| - 1;
      if Effective(eff, i, |tokens[j]|) {
        var k :| i / EFF_SCALE <= k <= last / EFF_SCALE && eff[k] == 1;
        var at := if k == i / 8 then i else 8 * k;
        assert at / 8 == k && i <= at <= last;
      }
      if at :| i <= at <= last && eff[at / 8] == 1 {
        assert i / EFF_SCALE <= at / 8 <= last / EFF_SCALE;
      }
    }
  }

  /** One eligible token at one offset. */
  ghost predicate OneToken(input: seq<byte>, tokens: seq<seq<byte>>, eff: seq<byte>, plan: Plan, i: nat, j: nat,
                           run: seq<byte>)
    requires Fits(input, tokens, eff)
  {
    && i < |input| && j < |tokens|
    && Eligible(input, tokens, eff, plan, i, j)
    && run == Over(input, i, tokens[j])
  }

  ghost predicate Justified(input: seq<byte>, tokens: seq<seq<byte>>, eff: seq<byte>, plan: Plan, run: seq<byte>)
    requires Fits(input, tokens, eff)
  {
    exists i, j :: OneToken(input, tokens, eff, plan, i, j, run)
  }

  ghost predicate Sound(input: seq<byte>, tokens: seq<seq<byte>>, eff: seq<byte>, plan: Plan, runs: seq<seq<byte>>)
    requires Fits(input, tokens, eff)
  {
    forall k | 0 <= k < |runs| :: Justified(input, tokens, eff, plan, runs[k])
  }

  /** No run told the stage to stop, up to the last one: whether that one did is the answer. */
  predicate StoppedByLast(stop: (nat, seq<byte>) -> bool, runs: seq<seq<byte>>, stopped: bool) {
    && (forall k | 0 <= k < |runs| - 1 :: !stop(k, runs[k]))
    && (stopped <==> runs != [] && stop(|runs| - 1, runs[|runs| - 1]))
  }

  /** What the stage owes to the pair i, j. */
  ghost predicate Served(input: seq<byte>, tokens: seq<seq<byte>>, eff: seq<byte>, plan: Plan, runs: seq<seq<byte>>,
                         i: nat, j: nat)
    requires Fits(input, tokens, eff)
    requires i < |input| && j < |tokens|
  {
    Eligible(input, tokens, eff, plan, i, j) ==>
      Over(input, i, tokens[j]) == input || Over(input, i, tokens[j]) in runs
  }

  /** What the buffer holds after some token, or none yet, at offset i. */
  ghost predicate Clobbered(input: seq<byte>, now: seq<byte>, i: nat, lastLen: nat, runs: seq<seq<byte>>) {
    && |now| == |input| && i + lastLen <= |input|
    && (lastLen == 0 ==> now == input)
    && (lastLen > 0 ==> now in runs)
    && now == Over(input, i, now[i..i + lastLen])
  }

  lemma {:induction false} ServedLater(input: seq<byte>, tokens: seq<seq<byte>>, eff: seq<byte>, plan: Plan,
                                       runs: seq<seq<byte>>, more: seq<seq<byte>>, i: nat, j: nat)
    requires Fits(input, tokens, eff) && i < |input| && j < |tokens|
    requires Served(input, tokens, eff, plan, runs, i, j) && runs <= more
    ensures Served(input, tokens, eff, plan, more, i, j)
  {
    if i + |tokens[j]| <= |input| && Over(input, i, tokens[j]) in runs {
      var k :| 0 <= k < |runs| && runs[k] == Over(input, i, tokens[j]);
      assert more[k] == runs[k];
    }
  }

  /** rows times columns, counted row by row. */
  function Pairs(rows: nat, columns: nat): nat {
    if rows == 0 then 0 else columns + Pairs(rows - 1, columns)
  }

  lemma {:induction false} PairsIsProduct(rows: nat, columns: nat)
    ensures Pairs(rows, columns) == rows * columns
  {
    if rows > 0 {
      PairsIsProduct(rows - 1, columns);
      assert rows * columns == (rows - 1) * columns + columns;
    }
  }

  class Stage {
    const input: seq<byte>
    const outBuf: array<byte>
    const tokens: seq<seq<byte>>
    const eff: seq<byte>
    const plan: Plan
    var stageCur: nat
    var stageMax: int
    ghost var runs: seq<seq<byte>>

    constructor (input: seq<byte>, tokens: seq<seq<byte>>, eff: seq<byte>, plan: Plan)
      requires Fits(input, tokens, eff)
      ensures Ready() && outBuf[..] == input && runs == []
      ensures this.input == input && this.tokens == tokens && this.eff == eff && this.plan == plan
      ensures fresh(outBuf) && stageCur == 0 && stageMax == |input| * |tokens|
    {
      this.input, this.tokens, this.eff, this.plan := input, tokens, eff, plan;
      outBuf := new byte[|input|](k requires 0 <= k < |input| => input[k]);
      stageCur, stageMax, runs := 0, |input| * |tokens|, [];
      new;
      assert outBuf[..] == input;
    }

    /** Every buffer run so far is the input with one eligible token in it. */
    ghost predicate Ready()
      reads `runs, `stageCur
    {
      && outBuf.Length == |input|
      && Fits(input, tokens, eff)
      && Sound(input, tokens, eff, plan, runs)
      && stageCur == |runs|
    }

    method Run() returns (stopped: bool)
      requires stageCur == |runs|
      modifies `stageCur, `runs
      ensures stageCur == |runs| && runs == old(runs) + [outBuf[..]]
      ensures stopped == plan.stop(old(stageCur), outBuf[..])
    {
      stopped := plan.stop(stageCur, outBuf[..]);
      stageCur := stageCur + 1;
      runs := runs + [outBuf[..]];
    }

    predicate IsThere(i: nat, t: seq<byte>)
      reads outBuf
      requires i + |t| <= outBuf.Length
    {
      outBuf[i..i + |t|] == t
    }

    method Put(i: nat, t: seq<byte>)
      requires i + |t| <= outBuf.Length
      modifies outBuf
      ensures outBuf[..] == Over(old(outBuf[..]), i, t)
    {
      ghost var was := outBuf[..];
      forall k | 0 <= k < |t| {
        outBuf[i + k] := t[k];
      }
      assert outBuf[..] == Over(was, i, t);
    }

    /** One token at one offset: skipped or written and run. */
    method TryToken(i: nat, j: nat, lastLen: nat) returns (stopped: bool, lastLen': nat)
      requires Ready() && i < |input| && j < |tokens| && lastLen <= |tokens[j]|
      requires Clobbered(input, outBuf[..], i, lastLen, runs)
      modifies `stageCur, `stageMax, `runs, outBuf
      ensures Ready() && old(runs) <= runs
      ensures if Eligible(input, tokens, eff, plan, i, j) && !old(IsThere(i, tokens[j]))
              then runs == old(runs) + [Over(input, i, tokens[j])] else runs == old(runs)
      ensures stopped <==> runs != old(runs) && plan.stop(old(stageCur), runs[old(stageCur)])
      ensures Clobbered(input, outBuf[..], i, lastLen', runs)
      ensures lastLen' == lastLen || lastLen' == |tokens[j]|
      ensures Served(input, tokens, eff, plan, runs, i, j)
      ensures stageMax - stageCur == old(stageMax) - old(stageCur) - 1
    {
      var t := tokens[j];
      ghost var was, before := outBuf[..], runs;
      var skip := plan.drop(i, j) || |t| > |input| - i;
      if !skip {
        skip := IsThere(i, t);
        if skip { AlreadyThere(input, was, i, lastLen, t, runs); }
      }
      if !skip {
        var effect := AnyEffect(eff, i, |t|);
        skip := !effect;
      }
      if skip {
        stageMax := stageMax - 1;
        return false, lastLen;
      }
      OverAgain(input, i, was[i..i + lastLen], t);
      Put(i, t);
      stopped := Run();
      lastLen' := |t|;
      OneMore(input, tokens, eff, plan, before, i, j);
    }

    /** All tokens at one offset, and the restoring of the buffer after them. */
    method TryOffset(i: nat) returns (stopped: bool)
      requires Ready() && i < |input| && outBuf[..] == input && StoppedByLast(plan.stop, runs, false)
      modifies `stageCur, `stageMax, `runs, outBuf
      ensures Ready() && old(runs) <= runs && StoppedByLast(plan.stop, runs, stopped)
      ensures !stopped ==> outBuf[..] == input
      ensures !stopped ==> forall j | 0 <= j < |tokens| :: Served(input, tokens, eff, plan, runs, i, j)
      ensures !stopped ==> stageMax - stageCur == old(stageMax) - old(stageCur) - |tokens|
    {
      hide Sound, Served, Effective, OneToken, Over;
      var lastLen: nat, j := 0, 0;
      Untouched(input, i, runs);
      while j < |tokens|
        invariant 0 <= j <= |tokens|
        invariant Ready() && old(runs) <= runs && StoppedByLast(plan.stop, runs, false)
        invariant Clobbered(input, outBuf[..], i, lastLen, runs)
        invariant forall m | j <= m < |tokens| :: lastLen <= |tokens[m]|
        invariant forall m | 0 <= m < j :: Served(input, tokens, eff, plan, runs, i, m)
        invariant stageMax - stageCur == old(stageMax) - old(stageCur) - j
      {
        ghost var before := runs;
        stopped, lastLen := TryToken(i, j, lastLen);
        if stopped { return; }
        forall m | 0 <= m < j
          ensures Served(input, tokens, eff, plan, runs, i, m)
        {
          ServedLater(input, tokens, eff, plan, before, runs, i, m);
        }
        j := j + 1;
      }
      Restores(input, outBuf[..], i, lastLen, runs);
      Put(i, input[i..i + lastLen]);
      stopped := false;
    }

    /** The whole stage. */
    method Overwrite() returns (stopped: bool)
      requires Ready() && outBuf[..] == input && runs == [] && stageMax == |input| * |tokens|
      modifies `stageCur, `stageMax, `runs, outBuf
      ensures Ready() && StoppedByLast(plan.stop, runs, stopped)
      ensures !stopped ==> outBuf[..] == input && stageMax == stageCur
      ensures !stopped ==> forall i, j | 0 <= i < |input| && 0 <= j < |tokens| ::
        Served(input, tokens, eff, plan, runs, i, j)
    {
      hide Sound, Served, Fits;
      var i := 0;
      PairsIsProduct(|input|, |tokens|);
      while i < |input|
        invariant 0 <= i <= |input|
        invariant Ready() && outBuf[..] == input && StoppedByLast(plan.stop, runs, false)
        invariant forall k, j | 0 <= k < i && 0 <= j < |tokens| :: Served(input, tokens, eff, plan, runs, k, j)
        invariant stageMax - stageCur == Pairs(|input| - i, |tokens|)
      {
        ghost var before := runs;
        stopped := TryOffset(i);
        if stopped { return; }
        forall k, j | 0 <= k < i && 0 <= j < |tokens|
          ensures Served(input, tokens, eff, plan, runs, k, j)
        {
          ServedLater(input, tokens, eff, plan, before, runs, k, j);
        }
        i := i + 1;
      }
      stopped := false;
    }
  }

  lemma Untouched(input: seq<byte>, i: nat, runs: seq<seq<byte>>)
    requires i <= |input|
    ensures Clobbered(input, input, i, 0, runs)
  {
    assert input == Over(input, i, input[i..i]);
  }

  /** One copy of the last length undoes all tokens at an offset. */
  lemma Restores(input: seq<byte>, now: seq<byte>, i: nat, lastLen: nat, runs: seq<seq<byte>>)
    requires Clobbered(input, now, i, lastLen, runs)
    ensures Over(now, i, input[i..i + lastLen]) == input
  {
    OverAgain(input, i, now[i..i + lastLen], input[i..i + lastLen]);
    assert Over(input, i, input[i..i + lastLen]) == input;
  }

  /** A token that is already there was run before, or is what the input has anyway. */
  lemma AlreadyThere(input: seq<byte>, now: seq<byte>, i: nat, lastLen: nat, t: seq<byte>, runs: seq<seq<byte>>)
    requires Clobbered(input, now, i, lastLen, runs)
    requires i + |t| <= |input| && lastLen <= |t| && now[i..i + |t|] == t
    ensures Over(input, i, t) == now && (now == input || now in runs)
  {
    OverAgain(input, i, now[i..i + lastLen], t);
    assert Over(now, i, t) == now;
  }

  lemma OneMore(input: seq<byte>, tokens: seq<seq<byte>>, eff: seq<byte>, plan: Plan, runs: seq<seq<byte>>, i: nat,
                j: nat)
    requires Fits(input, tokens, eff) && Sound(input, tokens, eff, plan, runs)
    requires i < |input| && j < |tokens| && Eligible(input, tokens, eff, plan, i, j)
    ensures Sound(input, tokens, eff, plan, runs + [Over(input, i, tokens[j])])
    ensures var t := tokens[j];
            Clobbered(input, Over(input, i, t), i, |t|, runs + [Over(input, i, t)])
  {
    var t := tokens[j];
    var now := Over(input, i, t);
    var more := runs + [now];
    assert OneToken(input, tokens, eff, plan, i, j, now);
    assert Justified(input, tokens, eff, plan, now);
    assert more[|runs|] == now;
    assert now[i..i + |t|] == t;
  }

  // ---------- insertion ----------

  const MAX_FILE := 1024 * 1024

  function Inserted(s: seq<byte>, i: nat, t: seq<byte>): (r: seq<byte>)
    requires i <= |s|
    ensures |r| == |s| + |t|
  {
    s[..i] + t + s[i..]
  }

  /** The buffers of the first n tokens at one offset. */
  function InsertedAt(input: seq<byte>, tokens: seq<seq<byte>>, i: nat, n: nat): seq<seq<byte>>
    requires i <= |input| && n <= |tokens|
  {
    if n == 0 then []
    else if |input| + |tokens[n - 1]| > MAX_FILE then InsertedAt(input, tokens, i, n - 1)
    else InsertedAt(input, tokens, i, n - 1) + [Inserted(input, i, tokens[n - 1])]
  }

  /** The buffers of the offsets below n. */
  function InsertedBelow(input: seq<byte>, tokens: seq<seq<byte>>, n: nat): seq<seq<byte>>
    requires n <= |input| + 1
  {
    if n == 0 then [] else InsertedBelow(input, tokens, n - 1) + InsertedAt(input, tokens, n - 1, |tokens|)
  }

  /** Token j inserted at offset i, if the result is no longer than a megabyte. */
  ghost predicate Insertable(input: seq<byte>, tokens: seq<seq<byte>>, i: nat, j: nat, run: seq<byte>) {
    && i <= |input| && j < |tokens| && |input| + |tokens[j]| <= 0x10_0000
    && run == input[..i] + tokens[j] + input[i..]
  }

  lemma {:induction false} InsertedAtOffset(input: seq<byte>, tokens: seq<seq<byte>>, i: nat, n: nat, run: seq<byte>)
    requires i <= |input| && n <= |tokens|
    ensures run in InsertedAt(input, tokens, i, n) <==> exists j: nat :: j < n && Insertable(input, tokens, i, j, run)
  {
    if n > 0 {
      InsertedAtOffset(input, tokens, i, n - 1, run);
      assert Insertable(input, tokens, i, n - 1, run) <==>
             |input| + |tokens[n - 1]| <= 0x10_0000 && run == Inserted(input, i, tokens[n - 1]);
    }
  }

  /** What the whole stage runs, no more and no less: each token inserted at each offset, the end included. */
  lemma {:induction false} InsertionsAreAll(input: seq<byte>, tokens: seq<seq<byte>>, n: nat, run: seq<byte>)
    requires n <= |input| + 1
    ensures run in InsertedBelow(input, tokens, n) <==>
            exists i: nat, j: nat :: i < n && Insertable(input, tokens, i, j, run)
  {
    hide InsertedAt;
    if n > 0 {
      InsertionsAreAll(input, tokens, n - 1, run);
      InsertedAtOffset(input, tokens, n - 1, |tokens|, run);
    }
  }

  lemma {:induction false} OffsetOrder(input: seq<byte>, tokens: seq<seq<byte>>, i: nat, n: nat, j: nat)
    requires i <= |input| && j < n <= |tokens|
    requires forall t | t in tokens :: |input| + |t| <= 0x10_0000
    ensures |InsertedAt(input, tokens, i, n)| == n
    ensures InsertedAt(input, tokens, i, n)[j] == input[..i] + tokens[j] + input[i..]
  {
    assert tokens[n - 1] in tokens;
    if n == 1 {
      assert InsertedAt(input, tokens, i, 0) == [];
    } else {
      OffsetOrder(input, tokens, i, n - 1, if j < n - 1 then j else 0);
    }
  }

  /** When every token fits, the runs come offset by offset and token by token. */
  lemma {:induction false} InsertionOrder(input: seq<byte>, tokens: seq<seq<byte>>, n: nat, i: nat, j: nat)
    requires i < n <= |input| + 1 && j < |tokens|
    requires forall t | t in tokens :: |input| + |t| <= 0x10_0000
    ensures var runs := InsertedBelow(input, tokens, n);
            && |runs| == n * |tokens| && 0 <= i * |tokens| + j < |runs|
            && runs[i * |tokens| + j] == input[..i] + tokens[j] + input[i..]
  {
    hide InsertedAt;
    OffsetOrder(input, tokens, n - 1, |tokens|, j);
    Row(i, n, |tokens|, j);
    if n == 1 {
      assert InsertedBelow(input, tokens, 0) == [];
    } else {
      InsertionOrder(input, tokens, n - 1, if i < n - 1 then i else 0, j);
    }
  }

  lemma Row(i: nat, n: nat, width: nat, j: nat)
    requires i < n && j < width
    ensures n * width == (n - 1) * width + width
    ensures 0 <= i * width + j < n * width && (i < n - 1 ==> i * width + j < (n - 1) * width)
  {
    Times(n - 1, width);
    RowBelow(i, n, width, j);
    if i < n - 1 { RowBelow(i, n - 1, width, j); }
  }

  lemma Times(n: nat, width: nat)
    ensures (n + 1) * width == n * width + width
  {}

  lemma {:induction false} RowBelow(i: nat, n: nat, width: nat, j: nat)
    requires i < n && j < width
    ensures 0 <= i * width + j < n * width
  {
    Times(n - 1, width);
    if i < n - 1 { RowBelow(i, n - 1, width, j); }
  }

  class Insertion {
    const input: seq<byte>
    const exTmp: array<byte>
    const tokens: seq<seq<byte>>
    const stop: (nat, seq<byte>) -> bool
    var execs: nat
    ghost var runs: seq<seq<byte>>

    constructor (input: seq<byte>, tokens: seq<seq<byte>>, stop: (nat, seq<byte>) -> bool)
      requires forall j | 0 <= j < |tokens| :: |tokens[j]| <= MAX_DICT_FILE
      ensures Ready() && runs == [] && execs == 0
      ensures this.input == input && this.tokens == tokens && this.stop == stop && fresh(exTmp)
    {
      this.input, this.tokens, this.stop := input, tokens, stop;
      exTmp := new byte[|input| + MAX_DICT_FILE];
      execs, runs := 0, [];
    }

    predicate Ready() {
      && exTmp.Length == |input| + MAX_DICT_FILE
      && forall j | 0 <= j < |tokens| :: |tokens[j]| <= MAX_DICT_FILE
    }

    /** Copies the token and the tail behind the head that is there already. */
    method Insert(i: nat, t: seq<byte>)
      requires Ready() && i <= |input| && |t| <= MAX_DICT_FILE && exTmp[..i] == input[..i]
      modifies exTmp
      ensures exTmp[..i] == input[..i]
      ensures exTmp[..|input| + |t|] == Inserted(input, i, t)
    {
      forall k | 0 <= k < |t| {
        exTmp[i + k] := t[k];
      }
      forall k | 0 <= k < |input| - i {
        exTmp[i + |t| + k] := input[i + k];
      }
      assert exTmp[..|input| + |t|] == Inserted(input, i, t);
    }

    /** Runs the first n bytes of the scratch buffer. */
    method Run(n: nat) returns (stopped: bool)
      requires n <= exTmp.Length && execs == |runs|
      modifies `execs, `runs
      ensures execs == |runs| && runs == old(runs) + [exTmp[..n]]
      ensures StoppedByLast(stop, old(runs), false) ==> StoppedByLast(stop, runs, stopped)
    {
      stopped := stop(execs, exTmp[..n]);
      execs := execs + 1;
      runs := runs + [exTmp[..n]];
    }

    /** Every token at one offset. */
    method InsertTokens(i: nat) returns (stopped: bool)
      requires Ready() && i <= |input| && exTmp[..i] == input[..i]
      requires execs == |runs| && StoppedByLast(stop, runs, false)
      modifies `execs, `runs, exTmp
      ensures exTmp[..i] == input[..i]
      ensures execs == |runs| && StoppedByLast(stop, runs, stopped)
      ensures !stopped ==> runs == old(runs) + InsertedAt(input, tokens, i, |tokens|)
      ensures runs <= old(runs) + InsertedAt(input, tokens, i, |tokens|)
    {
      hide Inserted, StoppedByLast;
      var j := 0;
      while j < |tokens|
        invariant 0 <= j <= |tokens|
        invariant exTmp[..i] == input[..i]
        invariant runs == old(runs) + InsertedAt(input, tokens, i, j)
        invariant execs == |runs| && StoppedByLast(stop, runs, false)
      {
        RowGrows(input, tokens, i, j + 1, |tokens|);
        var t := tokens[j];
        if |input| + |t| <= MAX_FILE {
          Insert(i, t);
          stopped := Run(|input| + |t|);
          if stopped { return; }
        }
        j := j + 1;
      }
      stopped := false;
    }

    /** The whole stage runs every insertion, offset by offset and token by token. */
    method InsertAll() returns (stopped: bool)
      requires Ready() && runs == [] && execs == 0
      modifies `execs, `runs, exTmp
      ensures execs == |runs| && StoppedByLast(stop, runs, stopped)
      ensures !stopped ==> runs == InsertedBelow(input, tokens, |input| + 1)
      ensures runs <= InsertedBelow(input, tokens, |input| + 1)
    {
      hide InsertedAt, InsertedBelow, StoppedByLast, Inserted;
      NotStopped(stop);
      NothingInserted(input, tokens);
      var i := 0;
      while i <= |input|
        invariant 0 <= i <= |input| + 1
        invariant i <= |input| ==> exTmp[..i] == input[..i]
        invariant runs == InsertedBelow(input, tokens, i)
        invariant execs == |runs| && StoppedByLast(stop, runs, false)
      {
        RowsGrow(input, tokens, i + 1, |input| + 1);
        OneMoreRow(input, tokens, i);
        stopped := InsertTokens(i);
        if stopped { return; }
        CopyHead(i);
        i := i + 1;
      }
      stopped := false;
    }

    /** The head grows by one byte of the input. */
    method CopyHead(i: nat)
      requires Ready() && i <= |input| && exTmp[..i] == input[..i]
      modifies exTmp
      ensures i < |input| ==> exTmp[..i + 1] == input[..i + 1]
    {
      if i < |input| {
        exTmp[i] := input[i];
        assert exTmp[..i + 1] == input[..i + 1];
      }
    }
  }

  lemma NotStopped(stop: (nat, seq<byte>) -> bool)
    ensures StoppedByLast(stop, [], false)
  {}

  lemma NothingInserted(input: seq<byte>, tokens: seq<seq<byte>>)
    ensures InsertedBelow(input, tokens, 0) == []
  {}

  lemma OneMoreRow(input: seq<byte>, tokens: seq<seq<byte>>, i: nat)
    requires i <= |input|
    ensures InsertedBelow(input, tokens, i + 1) ==
            InsertedBelow(input, tokens, i) + InsertedAt(input, tokens, i, |tokens|)
  {}

  lemma {:induction false} RowGrows(input: seq<byte>, tokens: seq<seq<byte>>, i: nat, j: nat, n: nat)
    requires i <= |input| && j <= n <= |tokens|
    ensures InsertedAt(input, tokens, i, j) <= InsertedAt(input, tokens, i, n)
  {
    if j < n { RowGrows(input, tokens, i, j, n - 1); }
  }

  lemma {:induction false} RowsGrow(input: seq<byte>, tokens: seq<seq<byte>>, i: nat, n: nat)
    requires i <= n <= |input| + 1
    ensures InsertedBelow(input, tokens, i) <= InsertedBelow(input, tokens, n)
  {
    if i < n { RowsGrow(input, tokens, i, n - 1); }
  }
}
